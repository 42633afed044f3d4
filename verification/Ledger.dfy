/** What the entry points of contracts-stellar/src/lib.rs share: addresses, the ledger, vaults. */
module Ledger {
  const U32_MAX := 0xFFFF_FFFF
  const U64_MAX := 0xFFFF_FFFF_FFFF_FFFF

  // A Stellar account or a deployed contract; the two are treated alike.
  datatype Address = Account(key: nat) | Contract(id: nat)

  // The ledger a transaction runs in: close time in seconds and sequence number.
  datatype Time = Time(timestamp: nat, sequence: nat)

  predicate NotBefore(now: Time, before: Time) {
    now.timestamp >= before.timestamp && now.sequence >= before.sequence
  }

  datatype Vault = Vault(creator: Address, guardians: seq<Address>, approvalThreshold: nat, isActive: bool)

  // A transaction panics, which restores the storage it started from, or completes.
  datatype Outcome<T> = Reverted | Done(state: T)

  function After<T>(before: T, o: Outcome<T>): T {
    if o.Done? then o.state else before
  }
}

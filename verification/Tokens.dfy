/** The vault access tokens of contracts-stellar/src/lib.rs: mint, burn, transfer and the two kinds of
    balance kept beside the owner map. */
module Tokens {
  import opened Ledger

  datatype TokenState = TokenState(count: nat, owner: map<nat, Address>, vault: map<nat, nat>,
                                   ownerBalance: map<Address, nat>, vaultBalance: map<(nat, Address), nat>)

  const NO_TOKENS := TokenState(0, map[], map[], map[], map[])

  function Get<K>(m: map<K, nat>, k: K): nat {
    if k in m then m[k] else 0
  }

  function Minus1(n: nat): nat {
    if n == 0 then 0 else n - 1
  }

  // ----- transitions -----

  predicate MayMint(vaults: map<nat, Vault>, minter: Address, vaultId: nat) {
    vaultId in vaults && vaults[vaultId].isActive && minter in vaults[vaultId].guardians
  }

  function MintStep(t: TokenState, vaults: map<nat, Vault>, minter: Address, vaultId: nat, to: Address): Outcome<TokenState> {
    if !MayMint(vaults, minter, vaultId) || t.count == U64_MAX
       || Get(t.ownerBalance, to) == U32_MAX || Get(t.vaultBalance, (vaultId, to)) == U32_MAX then Reverted
    else
      var id := t.count + 1;
      Done(TokenState(id, t.owner[id := to], t.vault[id := vaultId],
                      t.ownerBalance[to := Get(t.ownerBalance, to) + 1],
                      t.vaultBalance[(vaultId, to) := Get(t.vaultBalance, (vaultId, to)) + 1]))
  }

  function BurnStep(t: TokenState, owner: Address, id: nat): Outcome<TokenState> {
    if id !in t.owner || t.owner[id] != owner || id !in t.vault then Reverted
    else
      var held := (t.vault[id], owner);
      Done(TokenState(t.count, t.owner - {id}, t.vault - {id},
                      t.ownerBalance[owner := Minus1(Get(t.ownerBalance, owner))],
                      t.vaultBalance[held := Minus1(Get(t.vaultBalance, held))]))
  }

  function TransferStep(t: TokenState, from: Address, to: Address, id: nat): Outcome<TokenState> {
    if id !in t.owner || t.owner[id] != from || id !in t.vault then Reverted
    else
      var v := t.vault[id];
      var balances := t.ownerBalance[from := Minus1(Get(t.ownerBalance, from))];
      var held := t.vaultBalance[(v, from) := Minus1(Get(t.vaultBalance, (v, from)))];
      if Get(balances, to) == U32_MAX || Get(held, (v, to)) == U32_MAX then Reverted
      else Done(TokenState(t.count, t.owner[id := to], t.vault,
                           balances[to := Get(balances, to) + 1],
                           held[(v, to) := Get(held, (v, to)) + 1]))
  }

  // ----- what the balances mean -----

  function Owned(t: TokenState, a: Address): set<nat> {
    set id | id in t.owner && t.owner[id] == a
  }

  function OwnedIn(t: TokenState, v: nat, a: Address): set<nat> {
    set id | id in t.owner && t.owner[id] == a && id in t.vault && t.vault[id] == v
  }

  // Each balance is the number of live tokens it stands for.
  ghost predicate Invariant(t: TokenState) {
    && t.owner.Keys == t.vault.Keys
    && (forall id :: id in t.owner ==> id <= t.count)
    && (forall a :: Get(t.ownerBalance, a) == |Owned(t, a)| <= U32_MAX)
    && (forall v, a :: Get(t.vaultBalance, (v, a)) == |OwnedIn(t, v, a)| <= U32_MAX)
  }

  // u is t with one more token, in the hands of one owner.
  ghost predicate Given(t: TokenState, u: TokenState, id: nat, v: nat, to: Address) {
    id !in t.owner && id !in t.vault && u.owner == t.owner[id := to] && u.vault == t.vault[id := v]
  }

  lemma CountOne(before: set<nat>, after: set<nat>, id: nat)
    requires id !in before && after == before + {id}
    ensures |after| == |before| + 1
  {}

  lemma GivenOwned(t: TokenState, u: TokenState, id: nat, v: nat, to: Address, a: Address)
    requires Given(t, u, id, v, to)
    ensures |Owned(u, a)| == |Owned(t, a)| + if a == to then 1 else 0
  {
    if a == to { CountOne(Owned(t, a), Owned(u, a), id); } else { assert Owned(u, a) == Owned(t, a); }
  }

  lemma GivenMember(t: TokenState, u: TokenState, id: nat, v: nat, to: Address, w: nat, a: Address, x: nat)
    requires Given(t, u, id, v, to)
    ensures x in OwnedIn(u, w, a) <==> x in OwnedIn(t, w, a) || (x == id && (w, a) == (v, to))
    ensures id !in OwnedIn(t, w, a)
  {}

  lemma GivenOwnedIn(t: TokenState, u: TokenState, id: nat, v: nat, to: Address, w: nat, a: Address)
    requires Given(t, u, id, v, to)
    ensures |OwnedIn(u, w, a)| == |OwnedIn(t, w, a)| + if (w, a) == (v, to) then 1 else 0
  {
    forall x: nat ensures x in OwnedIn(u, w, a) <==> x in OwnedIn(t, w, a) || (x == id && (w, a) == (v, to)) {
      GivenMember(t, u, id, v, to, w, a, x);
    }
    GivenMember(t, u, id, v, to, w, a, id);
    hide OwnedIn, Given;
    if (w, a) == (v, to) { CountOne(OwnedIn(t, w, a), OwnedIn(u, w, a), id); }
    else { assert OwnedIn(u, w, a) == OwnedIn(t, w, a); }
  }

  lemma MintKeeps(t: TokenState, vaults: map<nat, Vault>, minter: Address, vaultId: nat, to: Address)
    requires Invariant(t)
    ensures Invariant(After(t, MintStep(t, vaults, minter, vaultId, to)))
  {
    hide Owned, OwnedIn;
    var o := MintStep(t, vaults, minter, vaultId, to);
    if o.Done? {
      var u, id := o.state, t.count + 1;
      assert Given(t, u, id, vaultId, to);
      forall a ensures Get(u.ownerBalance, a) == |Owned(u, a)| <= U32_MAX {
        GivenOwned(t, u, id, vaultId, to, a);
      }
      forall w: nat, a ensures Get(u.vaultBalance, (w, a)) == |OwnedIn(u, w, a)| <= U32_MAX {
        GivenOwnedIn(t, u, id, vaultId, to, w, a);
      }
    }
  }

  lemma BurnKeeps(t: TokenState, owner: Address, id: nat)
    requires Invariant(t)
    ensures Invariant(After(t, BurnStep(t, owner, id)))
  {
    hide Owned, OwnedIn;
    var o := BurnStep(t, owner, id);
    if o.Done? {
      var u, v := o.state, t.vault[id];
      assert Given(u, t, id, v, owner);
      forall a ensures Get(u.ownerBalance, a) == |Owned(u, a)| <= U32_MAX {
        GivenOwned(u, t, id, v, owner, a);
      }
      forall w: nat, a ensures Get(u.vaultBalance, (w, a)) == |OwnedIn(u, w, a)| <= U32_MAX {
        GivenOwnedIn(u, t, id, v, owner, w, a);
      }
    }
  }

  // Moving a token is taking it from one owner and giving it to the other.
  lemma TransferKeeps(t: TokenState, from: Address, to: Address, id: nat)
    requires Invariant(t)
    ensures Invariant(After(t, TransferStep(t, from, to, id)))
  {
    hide Owned, OwnedIn;
    var o := TransferStep(t, from, to, id);
    if o.Done? {
      BurnKeeps(t, from, id);
      var b, u, v := BurnStep(t, from, id).state, o.state, t.vault[id];
      TakenThenGiven(t, b, u, from, to, id);
      forall a ensures Get(u.ownerBalance, a) == |Owned(u, a)| <= U32_MAX {
        GivenOwned(b, u, id, v, to, a);
      }
      forall w: nat, a ensures Get(u.vaultBalance, (w, a)) == |OwnedIn(u, w, a)| <= U32_MAX {
        GivenOwnedIn(b, u, id, v, to, w, a);
      }
    }
  }

  lemma TakenThenGiven(t: TokenState, b: TokenState, u: TokenState, from: Address, to: Address, id: nat)
    requires TransferStep(t, from, to, id) == Done(u) && BurnStep(t, from, id) == Done(b)
    ensures Given(b, u, id, t.vault[id], to) && u.count == b.count == t.count && u.owner.Keys == t.owner.Keys
    ensures u.ownerBalance == b.ownerBalance[to := Get(b.ownerBalance, to) + 1]
    ensures u.vaultBalance == b.vaultBalance[(t.vault[id], to) := Get(b.vaultBalance, (t.vault[id], to)) + 1]
  {}

  lemma VaultShare(t: TokenState, v: nat, a: Address)
    requires Invariant(t)
    ensures Get(t.vaultBalance, (v, a)) <= Get(t.ownerBalance, a)
  {
    assert OwnedIn(t, v, a) <= Owned(t, a);
    Smaller(OwnedIn(t, v, a), Owned(t, a));
  }

  lemma Smaller(a: set<nat>, b: set<nat>)
    requires a <= b
    ensures |a| <= |b|
  {
    assert b == a + (b - a);
  }

  // A guardian of an active vault mints a token with a new number for anyone with room for one more.
  lemma MintLaw(t: TokenState, vaults: map<nat, Vault>, minter: Address, vaultId: nat, to: Address)
    requires Invariant(t)
    ensures var o := MintStep(t, vaults, minter, vaultId, to);
            && (o.Done? <==> vaultId in vaults && vaults[vaultId].isActive && minter in vaults[vaultId].guardians
                             && t.count != U64_MAX && |Owned(t, to)| < U32_MAX)
            && (o.Done? ==> o.state.count == t.count + 1 && Given(t, o.state, o.state.count, vaultId, to) && Invariant(o.state))
  {
    VaultShare(t, vaultId, to);
    MintKeeps(t, vaults, minter, vaultId, to);
    hide Owned, OwnedIn;
  }

  // The owner, and nobody else, burns a token.
  lemma BurnLaw(t: TokenState, owner: Address, id: nat)
    requires Invariant(t)
    ensures var o := BurnStep(t, owner, id);
            && (o.Done? <==> id in t.owner && t.owner[id] == owner)
            && (o.Done? ==> o.state.count == t.count && Given(o.state, t, id, t.vault[id], owner) && Invariant(o.state))
  {
    BurnKeeps(t, owner, id);
    hide Owned, OwnedIn;
  }

  // The owner, and nobody else, hands a token on, to anyone with room for one more.
  lemma TransferLaw(t: TokenState, from: Address, to: Address, id: nat)
    requires Invariant(t)
    ensures var o := TransferStep(t, from, to, id);
            && (o.Done? <==> id in t.owner && t.owner[id] == from && (from == to || |Owned(t, to)| < U32_MAX))
            && (o.Done? ==> o.state.count == t.count && o.state.owner == t.owner[id := to] && o.state.vault == t.vault && Invariant(o.state))
  {
    TransferKeeps(t, from, to, id);
    if id in t.owner && t.owner[id] == from {
      NeverSaturates(t, id);
      VaultShare(t, t.vault[id], to);
      VaultShare(t, t.vault[id], from);
    }
    hide Owned, OwnedIn;
  }

  // Where a token leaves an owner, the saturating subtraction subtracts.
  lemma NeverSaturates(t: TokenState, id: nat)
    requires Invariant(t) && id in t.owner
    ensures Get(t.ownerBalance, t.owner[id]) >= 1
    ensures Get(t.vaultBalance, (t.vault[id], t.owner[id])) >= 1
  {
    assert id in Owned(t, t.owner[id]) && id in OwnedIn(t, t.vault[id], t.owner[id]);
  }

  // Handing a token to oneself changes nothing, and never reverts.
  lemma SelfTransfer(t: TokenState, a: Address, id: nat)
    requires Invariant(t) && id in t.owner && t.owner[id] == a
    ensures TransferStep(t, a, a, id) == Done(t)
  {
    NeverSaturates(t, id);
    var v := t.vault[id];
    var u := TransferStep(t, a, a, id);
    assert Get(t.ownerBalance, a) <= U32_MAX && Get(t.vaultBalance, (v, a)) <= U32_MAX;
    assert u.Done?;
    assert u.state.owner == t.owner;
    assert u.state.ownerBalance == t.ownerBalance && u.state.vaultBalance == t.vaultBalance;
  }

  // has_vault_token: a positive count is a live token bound to the vault.
  lemma HasVaultToken(t: TokenState, v: nat, a: Address)
    requires Invariant(t)
    ensures Get(t.vaultBalance, (v, a)) > 0 <==> exists id :: id in t.owner && t.owner[id] == a && t.vault[id] == v
  {
    if Get(t.vaultBalance, (v, a)) > 0 {
      NotEmpty(OwnedIn(t, v, a));
      var id :| id in OwnedIn(t, v, a);
      assert id in t.owner && t.owner[id] == a && t.vault[id] == v;
    }
    if id :| id in t.owner && t.owner[id] == a && t.vault[id] == v {
      assert id in OwnedIn(t, v, a);
    }
  }

  lemma NotEmpty<T>(s: set<T>)
    requires |s| > 0
    ensures exists x :: x in s
  {}

  // ----- sums of balances -----

  // The balances of some addresses, added up in any order.
  ghost function Sum(m: map<Address, nat>, keys: set<Address>): nat
    requires keys <= m.Keys
  {
    if keys == {} then 0 else
      var a :| a in keys;
      m[a] + Sum(m, keys - {a})
  }

  function HeldBy(t: TokenState, keys: set<Address>): set<nat> {
    set id | id in t.owner && t.owner[id] in keys
  }

  lemma {:induction false} SumCountsTokens(t: TokenState, keys: set<Address>)
    requires Invariant(t) && keys <= t.ownerBalance.Keys
    ensures Sum(t.ownerBalance, keys) == |HeldBy(t, keys)|
    decreases keys
  {
    if keys == {} {
      assert HeldBy(t, keys) == {};
    } else {
      var a :| a in keys && Sum(t.ownerBalance, keys) == t.ownerBalance[a] + Sum(t.ownerBalance, keys - {a});
      SumCountsTokens(t, keys - {a});
      assert t.ownerBalance[a] == Get(t.ownerBalance, a);
      assert HeldBy(t, keys) == Owned(t, a) + HeldBy(t, keys - {a});
      assert Owned(t, a) !! HeldBy(t, keys - {a});
    }
  }

  // ----- runs -----

  datatype Event =
    | Mint(vaults: map<nat, Vault>, minter: Address, vaultId: nat, to: Address)
    | Burn(owner: Address, id: nat)
    | Transfer(from: Address, to: Address, id: nat)

  function Step(t: TokenState, e: Event): Outcome<TokenState> {
    match e
    case Mint(vaults, minter, vaultId, to) => MintStep(t, vaults, minter, vaultId, to)
    case Burn(owner, id) => BurnStep(t, owner, id)
    case Transfer(from, to, id) => TransferStep(t, from, to, id)
  }

  // The state after the first n calls, with the numbers of completed mints and burns.
  datatype World = World(tokens: TokenState, mints: nat, burns: nat)

  function Run(events: seq<Event>, n: nat): World
    requires n <= |events|
  {
    if n == 0 then World(NO_TOKENS, 0, 0) else
      var w, e := Run(events, n - 1), events[n - 1];
      var o := Step(w.tokens, e);
      World(After(w.tokens, o),
            w.mints + if e.Mint? && o.Done? then 1 else 0,
            w.burns + if e.Burn? && o.Done? then 1 else 0)
  }

  lemma StepKeeps(t: TokenState, e: Event)
    requires Invariant(t)
    ensures Invariant(After(t, Step(t, e)))
  {
    match e
    case Mint(vaults, minter, vaultId, to) => MintKeeps(t, vaults, minter, vaultId, to);
    case Burn(owner, id) => BurnKeeps(t, owner, id);
    case Transfer(from, to, id) => TransferKeeps(t, from, to, id);
  }

  lemma GivenKeys(t: map<nat, Address>, u: map<nat, Address>, id: nat, to: Address)
    requires id !in t && u == t[id := to]
    ensures |u.Keys| == |t.Keys| + 1
  {
    CountOne(t.Keys, u.Keys, id);
  }

  lemma MintedOne(t: TokenState, e: Event)
    requires Invariant(t) && e.Mint? && Step(t, e).Done?
    ensures |Step(t, e).state.owner.Keys| == |t.owner.Keys| + 1
  {
    hide Get, Owned, OwnedIn, MayMint;
    GivenKeys(t.owner, Step(t, e).state.owner, t.count + 1, e.to);
  }

  lemma BurnedOne(t: TokenState, e: Event)
    requires e.Burn? && Step(t, e).Done?
    ensures |Step(t, e).state.owner.Keys| == |t.owner.Keys| - 1
  {
    hide Get;
    assert t.owner == (t.owner - {e.id})[e.id := t.owner[e.id]];
    GivenKeys(t.owner - {e.id}, t.owner, e.id, t.owner[e.id]);
  }

  lemma MovedOne(t: TokenState, e: Event)
    requires e.Transfer? && Step(t, e).Done?
    ensures Step(t, e).state.owner.Keys == t.owner.Keys
  {
    hide Get;
  }

  lemma LiveTokens(t: TokenState, e: Event)
    requires Invariant(t) && Step(t, e).Done?
    ensures |Step(t, e).state.owner.Keys| == |t.owner.Keys| + if e.Mint? then 1 else if e.Burn? then -1 else 0
  {
    hide Invariant, Step;
    match e
    case Mint(_, _, _, _) => MintedOne(t, e);
    case Burn(_, _) => BurnedOne(t, e);
    case Transfer(_, _, _) => MovedOne(t, e);
  }

  // In every reachable state each balance counts live tokens, and all balances add up to mints minus burns.
  lemma {:induction false} RunKeeps(events: seq<Event>, n: nat)
    requires n <= |events|
    ensures var w := Run(events, n);
            Invariant(w.tokens) && |w.tokens.owner.Keys| == w.mints - w.burns
  {
    hide Invariant, Step;
    if n > 0 {
      RunKeeps(events, n - 1);
      StepKeeps(Run(events, n - 1).tokens, events[n - 1]);
      if Step(Run(events, n - 1).tokens, events[n - 1]).Done? {
        LiveTokens(Run(events, n - 1).tokens, events[n - 1]);
      }
    } else {
      NoTokensBalance();
    }
  }

  lemma NoTokensBalance()
    ensures Invariant(NO_TOKENS) && |NO_TOKENS.owner.Keys| == 0
  {
    assert forall a :: Owned(NO_TOKENS, a) == {};
    assert forall v, a :: OwnedIn(NO_TOKENS, v, a) == {};
  }

  lemma BalancesAddUp(events: seq<Event>)
    ensures var w := Run(events, |events|);
            Sum(w.tokens.ownerBalance, w.tokens.ownerBalance.Keys) == w.mints - w.burns
  {
    hide Run, Sum;
    RunKeeps(events, |events|);
    var t := Run(events, |events|).tokens;
    SumCountsTokens(t, t.ownerBalance.Keys);
    forall id | id in t.owner ensures t.owner[id] in t.ownerBalance {
      NeverSaturates(t, id);
    }
    assert HeldBy(t, t.ownerBalance.Keys) == t.owner.Keys;
  }

  // ----- where tokens come from -----

  function TokensAt(events: seq<Event>, n: nat): TokenState
    requires n <= |events|
  {
    Run(events, n).tokens
  }

  // Call k completes.
  predicate Completes(events: seq<Event>, k: nat)
    requires k < |events|
  {
    Step(TokensAt(events, k), events[k]).Done?
  }

  // Call k completes and puts the token in these hands: by minting it, or by its owner's transfer.
  predicate Gives(events: seq<Event>, k: nat, id: nat, to: Address)
    requires k < |events|
  {
    var t, e := TokensAt(events, k), events[k];
    && Completes(events, k)
    && ((e.Mint? && id == t.count + 1 && e.to == to)
        || (e.Transfer? && e.id == id && e.to == to && id in t.owner && e.from == t.owner[id]))
  }

  lemma OwnerMoves(t: TokenState, e: Event, id: nat)
    requires Invariant(t)
    ensures var u := After(t, Step(t, e));
            && (id in u.owner && !(id in t.owner && u.owner[id] == t.owner[id]) ==>
                  Step(t, e).Done? && ((e.Mint? && id == t.count + 1 && u.owner[id] == e.to)
                                       || (e.Transfer? && e.id == id && id in t.owner && e.from == t.owner[id] && u.owner[id] == e.to)))
            && (id in u.owner && id in t.owner ==> u.vault[id] == t.vault[id])
            && t.count <= u.count
            && (id !in t.owner && id in u.owner ==>
                  e.Mint? && id == t.count + 1 && u.vault[id] == e.vaultId && MayMint(e.vaults, e.minter, e.vaultId))
  {
    StepKeeps(t, e);
    match e
    case Mint(vaults, minter, vaultId, to) => MintLaw(t, vaults, minter, vaultId, to);
      hide MintStep, Owned, OwnedIn;
    case Burn(owner, b) => BurnLaw(t, owner, b);
      hide BurnStep, Owned, OwnedIn;
    case Transfer(from, to, b) => TransferLaw(t, from, to, b);
      hide TransferStep, Owned, OwnedIn;
  }

  // Over runs: whoever owns a token got it from the guardian who minted it or from the owner before.
  lemma {:induction false} OwnerWasGiven(events: seq<Event>, n: nat, id: nat) returns (k: nat)
    requires n <= |events| && id in TokensAt(events, n).owner
    ensures k < n && Gives(events, k, id, TokensAt(events, n).owner[id])
    decreases n
  {
    hide Step, Invariant;
    var t, e := TokensAt(events, n - 1), events[n - 1];
    RunKeeps(events, n - 1);
    OwnerMoves(t, e, id);
    if id in t.owner && TokensAt(events, n).owner[id] == t.owner[id] {
      k := OwnerWasGiven(events, n - 1, id);
    } else {
      k := n - 1;
    }
  }

  lemma SameKeys(t: TokenState, id: nat)
    requires Invariant(t)
    ensures id in t.owner <==> id in t.vault
  {}

  // Over runs: every live token was minted once, for its vault, by a guardian of that vault while it was active.
  lemma {:induction false} TokenWasMinted(events: seq<Event>, n: nat, id: nat) returns (k: nat)
    requires n <= |events| && id in TokensAt(events, n).owner
    ensures k < n && events[k].Mint? && Completes(events, k) && TokensAt(events, k).count + 1 == id
    ensures id in TokensAt(events, n).vault && TokensAt(events, n).vault[id] == events[k].vaultId
    ensures MayMint(events[k].vaults, events[k].minter, events[k].vaultId)
    decreases n
  {
    hide Step, MayMint, Invariant;
    RunKeeps(events, n - 1);
    var t, e := TokensAt(events, n - 1), events[n - 1];
    OwnerMoves(t, e, id);
    SameKeys(TokensAt(events, n), id) by { RunKeeps(events, n); }
    if id in t.owner {
      SameKeys(t, id);
      k := TokenWasMinted(events, n - 1, id);
    } else {
      k := n - 1;
    }
  }

  // Over runs: a burned token's number never comes back.
  lemma {:induction false} NumbersAreSpent(events: seq<Event>, m: nat, n: nat, id: nat)
    requires m <= n <= |events| && id <= TokensAt(events, m).count && id !in TokensAt(events, m).owner
    ensures id <= TokensAt(events, n).count && id !in TokensAt(events, n).owner
    decreases n
  {
    hide Step, Invariant;
    if m < n {
      NumbersAreSpent(events, m, n - 1, id);
      RunKeeps(events, n - 1);
      OwnerMoves(TokensAt(events, n - 1), events[n - 1], id);
    }
  }

  // ----- storage -----

  class TokenStorage {
    var tokenCount: nat
    var tokenOwner: map<nat, Address>
    var tokenVault: map<nat, nat>
    var tokenUri: map<nat, string>
    var ownerBalance: map<Address, nat>
    var vaultTokenBalance: map<(nat, Address), nat>

    ghost function State(): TokenState
      reads this
    {
      TokenState(tokenCount, tokenOwner, tokenVault, ownerBalance, vaultTokenBalance)
    }

    constructor ()
      ensures State() == NO_TOKENS
    {
      tokenCount, tokenOwner, tokenVault, tokenUri, ownerBalance, vaultTokenBalance := 0, map[], map[], map[], map[], map[];
    }

    method IncrementBalances(vaultId: nat, owner: Address)
      modifies this`ownerBalance, this`vaultTokenBalance
      ensures ownerBalance == old(ownerBalance)[owner := Get(old(ownerBalance), owner) + 1]
      ensures vaultTokenBalance == old(vaultTokenBalance)[(vaultId, owner) := Get(old(vaultTokenBalance), (vaultId, owner)) + 1]
    {
      var balance := if owner in ownerBalance then ownerBalance[owner] else 0;
      ownerBalance := ownerBalance[owner := balance + 1];
      var held := if (vaultId, owner) in vaultTokenBalance then vaultTokenBalance[(vaultId, owner)] else 0;
      vaultTokenBalance := vaultTokenBalance[(vaultId, owner) := held + 1];
    }

    method DecrementBalances(vaultId: nat, owner: Address)
      modifies this`ownerBalance, this`vaultTokenBalance
      ensures ownerBalance == old(ownerBalance)[owner := Minus1(Get(old(ownerBalance), owner))]
      ensures vaultTokenBalance == old(vaultTokenBalance)[(vaultId, owner) := Minus1(Get(old(vaultTokenBalance), (vaultId, owner)))]
    {
      var balance := if owner in ownerBalance then ownerBalance[owner] else 0;
      ownerBalance := ownerBalance[owner := if balance > 0 then balance - 1 else 0];
      var held := if (vaultId, owner) in vaultTokenBalance then vaultTokenBalance[(vaultId, owner)] else 0;
      vaultTokenBalance := vaultTokenBalance[(vaultId, owner) := if held > 0 then held - 1 else 0];
    }

    // Not ok where the call panics and the host restores the storage.
    method MintAccessToken(vaults: map<nat, Vault>, minter: Address, vaultId: nat, to: Address, uri: string)
      returns (ok: bool, id: nat)
      modifies this
      ensures State() == After(old(State()), MintStep(old(State()), vaults, minter, vaultId, to))
      ensures ok == MintStep(old(State()), vaults, minter, vaultId, to).Done?
      ensures ok ==> id == tokenCount && id in tokenUri && tokenUri[id] == uri
    {
      if vaultId !in vaults || !vaults[vaultId].isActive || minter !in vaults[vaultId].guardians {
        return false, 0;
      }
      if tokenCount == U64_MAX || Get(ownerBalance, to) == U32_MAX || Get(vaultTokenBalance, (vaultId, to)) == U32_MAX {
        return false, 0;
      }
      var next := tokenCount + 1;
      tokenCount := next;
      tokenOwner := tokenOwner[next := to];
      tokenVault := tokenVault[next := vaultId];
      tokenUri := tokenUri[next := uri];
      IncrementBalances(vaultId, to);
      return true, next;
    }

    method BurnAccessToken(owner: Address, id: nat) returns (ok: bool)
      modifies this
      ensures State() == After(old(State()), BurnStep(old(State()), owner, id))
      ensures ok == BurnStep(old(State()), owner, id).Done?
    {
      if id !in tokenOwner || tokenOwner[id] != owner || id !in tokenVault {
        return false;
      }
      var vaultId := tokenVault[id];
      DecrementBalances(vaultId, owner);
      tokenOwner := tokenOwner - {id};
      tokenVault := tokenVault - {id};
      tokenUri := tokenUri - {id};
      return true;
    }

    method TransferToken(from: Address, to: Address, id: nat) returns (ok: bool)
      modifies this
      ensures State() == After(old(State()), TransferStep(old(State()), from, to, id))
      ensures ok == TransferStep(old(State()), from, to, id).Done?
    {
      if id !in tokenOwner || tokenOwner[id] != from || id !in tokenVault {
        return false;
      }
      var vaultId := tokenVault[id];
      var balances, held := ownerBalance, vaultTokenBalance;
      DecrementBalances(vaultId, from);
      if Get(ownerBalance, to) == U32_MAX || Get(vaultTokenBalance, (vaultId, to)) == U32_MAX {
        ownerBalance, vaultTokenBalance := balances, held;
        return false;
      }
      IncrementBalances(vaultId, to);
      tokenOwner := tokenOwner[id := to];
      return true;
    }
  }
}

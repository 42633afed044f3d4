/** Vaults, documents and access requests of contracts-stellar/src/lib.rs: what each entry point does to the
    storage, and what every run keeps. */
module Approvals {
  import opened Text
  import opened Ledger
  import FheOnChain

  const INVITE_PERIOD := 604800
  const REQUEST_PERIOD := 259200

  datatype Level = Read | ReadWrite | Admin
  datatype Status = Pending | Approved | Rejected | Expired

  datatype Document = Document(vaultId: nat, uploadedBy: Address, requiredAccess: Level)
  datatype Request = Request(documentId: nat, requester: Address, approvedBy: seq<Address>, status: Status, expiresAt: nat)
  datatype Invite = Invite(vaultId: nat, accepted: bool, expiresAt: nat)

  // Keys (request, guardian) and (vault, guardian) whose stored flag is only ever true are held as sets.
  datatype Store = Store(
    vaults: map<nat, Vault>, docs: map<nat, Document>, requests: map<nat, Request>, invites: map<Address, seq<Invite>>,
    vaultCount: nat, docCount: nat, reqCount: nat,
    approved: set<(nat, Address)>, blsKeys: set<(nat, Address)>,
    hasAccess: map<(nat, Address), bool>, level: map<(nat, Address), Level>, version: map<(nat, Address), nat>,
    fheShares: map<(nat, Address), seq<nat>>, accumulators: map<nat, seq<nat>>, accumulated: map<nat, nat>)

  const EMPTY := Store(map[], map[], map[], map[], 0, 0, 0, {}, {}, map[], map[], map[], map[], map[], map[])

  // ----- vaults -----

  predicate Distinct<T(==)>(s: seq<T>) {
    forall i, j :: 0 <= i < j < |s| ==> s[i] != s[j]
  }

  // How many of the first n addresses are not the creator.
  function External(guardians: seq<Address>, creator: Address, n: nat): (c: nat)
    requires n <= |guardians|
    ensures c <= n
  {
    if n == 0 then 0 else External(guardians, creator, n - 1) + if guardians[n - 1] != creator then 1 else 0
  }

  function InvitesOf(invites: map<Address, seq<Invite>>, a: Address): seq<Invite> {
    if a in invites then invites[a] else []
  }

  function AddInvites(invites: map<Address, seq<Invite>>, guardians: seq<Address>, creator: Address, invite: Invite, n: nat)
    : map<Address, seq<Invite>>
    requires n <= |guardians|
  {
    if n == 0 then invites else
      var before := AddInvites(invites, guardians, creator, invite, n - 1);
      var g := guardians[n - 1];
      if g == creator then before else before[g := InvitesOf(before, g) + [invite]]
  }

  function CreateVaultStep(s: Store, creator: Address, guardians: seq<Address>, threshold: nat, now: Time): Outcome<Store> {
    var external := External(guardians, creator, |guardians|);
    if !Distinct(guardians) || external == 0 || threshold == 0 || threshold > external + 1
       || s.vaultCount == U64_MAX || now.timestamp + INVITE_PERIOD > U64_MAX then Reverted
    else
      var id := s.vaultCount + 1;
      Done(s.(vaultCount := id, vaults := s.vaults[id := Vault(creator, [creator], threshold, true)],
              invites := AddInvites(s.invites, guardians, creator, Invite(id, false, now.timestamp + INVITE_PERIOD), |guardians|)))
  }

  // The first open invitation to a vault.
  function OpenInvite(invites: seq<Invite>, vaultId: nat, from: nat := 0): (i: Option<nat>)
    requires from <= |invites|
    ensures i.Some? ==> from <= i.value < |invites|
    decreases |invites| - from
  {
    if from == |invites| then None
    else if invites[from].vaultId == vaultId && !invites[from].accepted then Some(from)
    else OpenInvite(invites, vaultId, from + 1)
  }

  function AcceptInviteStep(s: Store, guardian: Address, vaultId: nat, now: Time): Outcome<Store> {
    if vaultId !in s.vaults || !s.vaults[vaultId].isActive || guardian in s.vaults[vaultId].guardians
       || guardian !in s.invites then Reverted
    else
      var mine := s.invites[guardian];
      var open := OpenInvite(mine, vaultId);
      if open.None? || now.timestamp >= mine[open.value].expiresAt then Reverted
      else
        var vault := s.vaults[vaultId];
        Done(s.(invites := s.invites[guardian := mine[open.value := mine[open.value].(accepted := true)]],
                vaults := s.vaults[vaultId := vault.(guardians := vault.guardians + [guardian])]))
  }

  function DeactivateStep(s: Store, owner: Address, vaultId: nat): Outcome<Store> {
    if vaultId !in s.vaults || s.vaults[vaultId].creator != owner || !s.vaults[vaultId].isActive then Reverted
    else Done(s.(vaults := s.vaults[vaultId := s.vaults[vaultId].(isActive := false)]))
  }

  predicate ActiveGuardian(s: Store, vaultId: nat, a: Address) {
    vaultId in s.vaults && s.vaults[vaultId].isActive && a in s.vaults[vaultId].guardians
  }

  function RegisterBlsKeyStep(s: Store, guardian: Address, vaultId: nat, possessed: bool): Outcome<Store> {
    if !ActiveGuardian(s, vaultId, guardian) || !possessed then Reverted
    else Done(s.(blsKeys := s.blsKeys + {(vaultId, guardian)}))
  }

  // ----- documents and requests -----

  // The storage hash must be given and the guardian and share lists must have one length.
  function AddDocumentStep(s: Store, uploader: Address, vaultId: nat, level: Level, wellFormed: bool): Outcome<Store> {
    if !ActiveGuardian(s, vaultId, uploader) || !wellFormed || s.docCount == U64_MAX then Reverted
    else
      var id := s.docCount + 1;
      Done(s.(docCount := id, docs := s.docs[id := Document(vaultId, uploader, level)],
              hasAccess := s.hasAccess[(id, uploader) := true], level := s.level[(id, uploader) := level]))
  }

  predicate HasAccess(s: Store, documentId: nat, user: Address) {
    (documentId, user) in s.hasAccess && s.hasAccess[(documentId, user)]
  }

  // The document's vault, and the vault's record, if both exist and the vault is active.
  predicate ActiveDocument(s: Store, documentId: nat) {
    && documentId in s.docs && s.docs[documentId].vaultId in s.vaults
    && s.vaults[s.docs[documentId].vaultId].isActive
  }

  // released is the answer of the release condition, which may panic.
  function RequestAccessStep(s: Store, requester: Address, documentId: nat, released: Outcome<bool>, now: Time): Outcome<Store> {
    if !ActiveDocument(s, documentId) || HasAccess(s, documentId, requester) || released != Done(true)
       || s.reqCount == U64_MAX || now.timestamp + REQUEST_PERIOD > U64_MAX then Reverted
    else
      var id := s.reqCount + 1;
      Done(s.(reqCount := id,
              requests := s.requests[id := Request(documentId, requester, [], Pending, now.timestamp + REQUEST_PERIOD)]))
  }

  // ----- approvals -----

  predicate Approvable(s: Store, id: nat, now: Time) {
    && id in s.requests && s.requests[id].status == Pending && now.timestamp < s.requests[id].expiresAt
    && ActiveDocument(s, s.requests[id].documentId)
  }

  function VaultIdOf(s: Store, id: nat): nat
    requires id in s.requests && s.requests[id].documentId in s.docs
  {
    s.docs[s.requests[id].documentId].vaultId
  }

  function VaultOf(s: Store, id: nat): Vault
    requires id in s.requests && ActiveDocument(s, s.requests[id].documentId)
  {
    s.vaults[VaultIdOf(s, id)]
  }

  // One more approval on record.
  function Endorse(s: Store, id: nat, guardian: Address): Store
    requires id in s.requests
  {
    s.(approved := s.approved + {(id, guardian)},
       requests := s.requests[id := s.requests[id].(approvedBy := s.requests[id].approvedBy + [guardian])])
  }

  // The request is approved and its requester gets access at the document's level.
  function Grant(s: Store, id: nat): Store
    requires id in s.requests && s.requests[id].documentId in s.docs
  {
    var request := s.requests[id];
    var key := (request.documentId, request.requester);
    s.(requests := s.requests[id := request.(status := Approved)],
       hasAccess := s.hasAccess[key := true], level := s.level[key := s.docs[request.documentId].requiredAccess])
  }

  // Access once the threshold is reached.
  function Conclude(s: Store, id: nat, threshold: nat): Store
    requires id in s.requests && s.requests[id].documentId in s.docs
  {
    if |s.requests[id].approvedBy| >= threshold then Grant(s, id) else s
  }

  function ApproveStep(s: Store, approver: Address, id: nat, now: Time): Outcome<Store> {
    if !Approvable(s, id, now) || approver !in VaultOf(s, id).guardians || (id, approver) in s.approved then Reverted
    else Done(Conclude(Endorse(s, id, approver), id, VaultOf(s, id).approvalThreshold))
  }

  // verified: the signatures reach the vault's threshold.
  function ApproveThresholdStep(s: Store, id: nat, verified: bool, now: Time): Outcome<Store> {
    if !Approvable(s, id, now) || !verified then Reverted else Done(Grant(s, id))
  }

  // The first n listed guardians, each checked and then endorsed unless already on record.
  function EndorseAll(s: Store, id: nat, guardians: seq<Address>, n: nat): (r: Outcome<Store>)
    requires n <= |guardians| && id in s.requests && ActiveDocument(s, s.requests[id].documentId)
    ensures r.Done? ==> id in r.state.requests && r.state.docs == s.docs && r.state.vaults == s.vaults
                        && r.state.requests[id].documentId == s.requests[id].documentId
                        && r.state.requests[id].requester == s.requests[id].requester
  {
    if n == 0 then Done(s) else
      match EndorseAll(s, id, guardians, n - 1)
      case Reverted => Reverted
      case Done(before) =>
        var g := guardians[n - 1];
        if g !in VaultOf(s, id).guardians || g == s.requests[id].requester || (VaultIdOf(s, id), g) !in s.blsKeys then Reverted
        else if (id, g) in before.approved then Done(before)
        else Done(Endorse(before, id, g))
  }

  // valid: the aggregated signature verifies.
  function ApproveBlsStep(s: Store, id: nat, guardians: seq<Address>, valid: bool, now: Time): Outcome<Store> {
    if !Approvable(s, id, now) || |guardians| < VaultOf(s, id).approvalThreshold || !valid then Reverted
    else
      match EndorseAll(s, id, guardians, |guardians|)
      case Reverted => Reverted
      case Done(endorsed) => Done(Conclude(endorsed, id, VaultOf(s, id).approvalThreshold))
  }

  function AccumulatorOf(s: Store, id: nat): FheOnChain.Accumulator {
    FheOnChain.Accumulator(if id in s.accumulators then s.accumulators[id] else [],
                           if id in s.accumulated then s.accumulated[id] else 0)
  }

  // A non-empty share is stored and added to the request's accumulator; addition may panic.
  function Submit(s: Store, id: nat, approver: Address, share: seq<nat>): Outcome<Store> {
    if share == [] then Done(s) else
      match FheOnChain.Accumulate(AccumulatorOf(s, id), share)
      case None => Reverted
      case Some(acc) =>
        if acc.count > U32_MAX then Reverted
        else Done(s.(fheShares := s.fheShares[(id, approver) := share],
                     accumulators := s.accumulators[id := acc.bytes], accumulated := s.accumulated[id := acc.count]))
  }

  function ApproveFheStep(s: Store, approver: Address, id: nat, share: seq<nat>, now: Time): Outcome<Store> {
    if !Approvable(s, id, now) || s.requests[id].requester == approver
       || approver !in VaultOf(s, id).guardians || (id, approver) in s.approved then Reverted
    else
      match Submit(Endorse(s, id, approver), id, approver, share)
      case Reverted => Reverted
      case Done(submitted) => Done(Conclude(submitted, id, VaultOf(s, id).approvalThreshold))
  }

  // ----- revocation -----

  // The grant goes, and the target's access version in the document's vault moves on.
  function Revoke(s: Store, documentId: nat, target: Address): Outcome<Store> {
    var key := (documentId, target);
    var cleared := s.(hasAccess := s.hasAccess[key := false], level := s.level - {key});
    if documentId !in s.docs then Done(cleared)
    else
      var at := (s.docs[documentId].vaultId, target);
      var current := if at in s.version then s.version[at] else 1;
      if current == U64_MAX then Reverted else Done(cleared.(version := s.version[at := current + 1]))
  }

  function RevokeStep(s: Store, guardian: Address, documentId: nat, target: Address): Outcome<Store> {
    if documentId !in s.docs || s.docs[documentId].vaultId !in s.vaults
       || guardian !in s.vaults[s.docs[documentId].vaultId].guardians then Reverted
    else Revoke(s, documentId, target)
  }

  // authentic: the linked revoker signed this broadcast with a fresh nonce.
  function RelayRevokeStep(s: Store, linkedVault: nat, documentId: nat, target: Address, authentic: bool): Outcome<Store> {
    if documentId !in s.docs || s.docs[documentId].vaultId != linkedVault || !authentic then Reverted
    else Revoke(s, documentId, target)
  }
}

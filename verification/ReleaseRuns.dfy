/** Requests and emergency unlocks of contracts-stellar/src/lib.rs together: a request is let through by the
    release condition of its document at that moment. */
module ReleaseRuns {
  import opened Text
  import opened Ledger
  import opened Approvals
  import A = ApprovalRuns
  import E = Emergency

  // The stores of both machines and each document's release condition; direct holds the requests a threshold
  // signature decided.
  datatype Joint = Joint(store: Store, direct: set<nat>, unlocks: map<nat, E.World>, conditions: map<nat, E.Condition>)

  const NEW := Joint(EMPTY, {}, map[], map[])

  /** A call of the approval machine, with the release condition an added document gets, or of the unlock
      machine of one vault. */
  datatype Event =
    | Access(event: A.Event, condition: E.Condition)
    | Unlock(vaultId: nat, op: E.Op)

  datatype Call = Call(event: Event, now: Time)

  function ConditionOf(c: Joint, documentId: nat): E.Condition {
    if documentId in c.conditions then c.conditions[documentId] else E.Anytime
  }

  // is_release_condition_satisfied for a document; it panics like the rest of the call where that does.
  function ReleaseOf(c: Joint, documentId: nat, now: Time): Outcome<bool> {
    if documentId !in c.store.docs || c.store.docs[documentId].vaultId !in c.unlocks then Reverted
    else E.Released(c.unlocks[c.store.docs[documentId].vaultId].state, ConditionOf(c, documentId), now)
  }

  // The approval machine's call, with the answer of the release condition.
  function Answered(c: Joint, e: A.Event, now: Time): A.Event {
    if e.RequestAccess? then e.(released := ReleaseOf(c, e.documentId, now)) else e
  }

  // What a completed call of the approval machine does to the unlock states; a new vault has the given id.
  function UnlocksAfter(unlocks: map<nat, E.World>, e: A.Event, created: nat, now: Time): map<nat, E.World> {
    match e
    case CreateVault(creator, _, _) => unlocks[created := E.Begin(creator, now)]
    case Deactivate(owner, v) =>
      if v in unlocks then unlocks[v := E.Advance(unlocks[v], E.Call(E.Deactivate(owner), now))] else unlocks
    case _ => unlocks
  }

  function AccessStep(c: Joint, e: A.Event, condition: E.Condition, now: Time): Joint {
    var event := Answered(c, e, now);
    var o := A.Step(c.store, event, now);
    if o.Reverted? then c else
      var s := o.state;
      var after := c.(store := s, unlocks := UnlocksAfter(c.unlocks, event, s.vaultCount, now));
      match event
      case AddDocument(_, _, _, _) => after.(conditions := c.conditions[s.docCount := condition])
      case ApproveThreshold(id, _) => after.(direct := c.direct + {id})
      case _ => after
  }

  function Step(c: Joint, e: Event, now: Time): Joint {
    match e
    case Access(event, condition) => AccessStep(c, event, condition, now)
    case Unlock(v, op) =>
      if v !in c.unlocks || op.Deactivate? then c
      else c.(unlocks := c.unlocks[v := E.Advance(c.unlocks[v], E.Call(op, now))])
  }

  // The first n calls.
  function Run(calls: seq<Call>, n: nat): Joint
    requires n <= |calls|
  {
    if n == 0 then NEW else Step(Run(calls, n - 1), calls[n - 1].event, calls[n - 1].now)
  }

  ghost predicate Chronological(calls: seq<Call>) {
    forall i :: 0 < i < |calls| ==> NotBefore(calls[i].now, calls[i - 1].now)
  }

  // ----- invariants -----

  // Both machines know the same vaults and agree on creator and activity.
  ghost predicate Linked(vaults: map<nat, Vault>, unlocks: map<nat, E.World>) {
    && unlocks.Keys == vaults.Keys
    && forall v :: v in unlocks ==> SameRecord(vaults[v], unlocks[v])
  }

  predicate SameRecord(vault: Vault, w: E.World) {
    w.state.record.creator == vault.creator && w.state.record.isActive == vault.isActive
  }

  ghost predicate UnlocksOk(unlocks: map<nat, E.World>, now: Time) {
    forall v :: v in unlocks ==> E.Invariant(unlocks[v]) && NotBefore(now, unlocks[v].now)
  }

  ghost predicate Joined(c: Joint, now: Time) {
    A.Sound(c.store, c.direct, None) && Linked(c.store.vaults, c.unlocks) && UnlocksOk(c.unlocks, now)
  }

  lemma LaterOk(unlocks: map<nat, E.World>, before: Time, now: Time)
    requires UnlocksOk(unlocks, before) && NotBefore(now, before)
    ensures UnlocksOk(unlocks, now)
  {
    hide E.Invariant;
  }

  lemma BeginHolds(creator: Address, now: Time)
    ensures E.Invariant(E.Begin(creator, now)) && E.Begin(creator, now).now == now
    ensures E.Begin(creator, now).state.record.creator == creator && E.Begin(creator, now).state.record.isActive
  {}

  lemma AdvanceHolds(w: E.World, op: E.Op, now: Time)
    requires E.Invariant(w) && NotBefore(now, w.now)
    ensures E.Invariant(E.Advance(w, E.Call(op, now))) && E.Advance(w, E.Call(op, now)).now == now
    ensures E.Advance(w, E.Call(op, now)).state.record.creator == w.state.record.creator
    ensures E.Advance(w, E.Call(op, now)).state.record.isActive
         == (w.state.record.isActive && !(op.Deactivate? && op.owner == w.state.record.creator))
  {
    E.StepKeeps(w, E.Call(op, now));
    hide E.Invariant;
  }

  // ----- one call -----

  // What a completed call of the approval machine leaves alone.
  lemma AccessFrame(s: Store, direct: set<nat>, e: A.Event, now: Time)
    requires A.Sound(s, direct, None) && A.Step(s, e, now).Done?
    ensures var t := A.Step(s, e, now).state;
            && (!e.RequestAccess? ==> t.requests.Keys == s.requests.Keys)
            && (!e.AddDocument? ==> t.docs == s.docs)
            && (!e.CreateVault? && !e.Deactivate? ==> SameVaults(s.vaults, t.vaults))
  {
    hide AddInvites, OpenInvite, External, Distinct, HasAccess, ActiveGuardian, EndorseAll, Submit, Conclude, Revoke;
    hide A.RequestsOk, A.FlagsOk, A.AccessOk, A.Justified, A.DocsOk;
    match e
    case ApproveBls(id, gs, _) => BlsFrame(s, id, gs, now);
    case ApproveFhe(a, id, share) => FheFrame(s, a, id, share);
    case Approve(a, id) => ConcludeFrame(Endorse(s, id, a), id, VaultOf(s, id).approvalThreshold);
    case RevokeAccess(_, d, u) => RevokeFrame(s, d, u);
    case RelayRevoke(_, d, u, _) => RevokeFrame(s, d, u);
    case _ =>
  }

  ghost predicate SameVaults(before: map<nat, Vault>, after: map<nat, Vault>) {
    && before.Keys == after.Keys
    && forall v :: v in before ==> after[v].creator == before[v].creator && after[v].isActive == before[v].isActive
  }

  predicate SameFrame(s: Store, t: Store) {
    t.vaults == s.vaults && t.docs == s.docs && t.requests.Keys == s.requests.Keys
  }

  lemma ConcludeFrame(s: Store, id: nat, threshold: nat)
    requires id in s.requests && s.requests[id].documentId in s.docs
    ensures SameFrame(s, Conclude(s, id, threshold))
  {}

  lemma {:induction false} EndorseAllFrame(s: Store, id: nat, guardians: seq<Address>, n: nat)
    requires n <= |guardians| && id in s.requests && ActiveDocument(s, s.requests[id].documentId)
    ensures EndorseAll(s, id, guardians, n).Done? ==> SameFrame(s, EndorseAll(s, id, guardians, n).state)
  {
    if n > 0 {
      EndorseAllFrame(s, id, guardians, n - 1);
    }
  }

  lemma BlsFrame(s: Store, id: nat, guardians: seq<Address>, now: Time)
    requires Approvable(s, id, now) && EndorseAll(s, id, guardians, |guardians|).Done?
    ensures SameFrame(s, Conclude(EndorseAll(s, id, guardians, |guardians|).state, id, VaultOf(s, id).approvalThreshold))
  {
    EndorseAllFrame(s, id, guardians, |guardians|);
    ConcludeFrame(EndorseAll(s, id, guardians, |guardians|).state, id, VaultOf(s, id).approvalThreshold);
  }

  lemma FheFrame(s: Store, approver: Address, id: nat, share: seq<nat>)
    requires id in s.requests && ActiveDocument(s, s.requests[id].documentId)
    requires Submit(Endorse(s, id, approver), id, approver, share).Done?
    ensures var t := Submit(Endorse(s, id, approver), id, approver, share).state;
            && id in t.requests && t.requests[id].documentId in t.docs
            && SameFrame(s, Conclude(t, id, VaultOf(s, id).approvalThreshold))
  {
    A.SubmitFrame(Endorse(s, id, approver), id, approver, share);
    hide Submit;
    ConcludeFrame(Submit(Endorse(s, id, approver), id, approver, share).state, id, VaultOf(s, id).approvalThreshold);
  }

  lemma RevokeFrame(s: Store, documentId: nat, target: Address)
    ensures Revoke(s, documentId, target).Done? ==> SameFrame(s, Revoke(s, documentId, target).state)
  {}

  // A new vault has a new number, belongs to its creator and is active.
  lemma CreateVaultFrame(s: Store, direct: set<nat>, e: A.Event, now: Time)
    requires A.Sound(s, direct, None) && e.CreateVault? && A.Step(s, e, now).Done?
    ensures var t := A.Step(s, e, now).state;
            && t.vaultCount !in s.vaults && t.vaults.Keys == s.vaults.Keys + {t.vaultCount}
            && SameVaults(s.vaults, t.vaults - {t.vaultCount})
            && t.vaults[t.vaultCount].creator == e.creator && t.vaults[t.vaultCount].isActive
  {
    hide AddInvites, External, Distinct, A.RequestsOk, A.FlagsOk, A.AccessOk, A.Justified, A.DocsOk;
    assert s.vaultCount + 1 !in s.vaults;
  }

  // Only the creator deactivates a vault.
  lemma DeactivateFrame(s: Store, e: A.Event, now: Time)
    requires e.Deactivate? && A.Step(s, e, now).Done?
    ensures var t := A.Step(s, e, now).state;
            && e.vaultId in s.vaults && s.vaults[e.vaultId].creator == e.owner
            && e.vaultId in t.vaults && t.vaults.Keys == s.vaults.Keys
            && SameVaults(s.vaults - {e.vaultId}, t.vaults - {e.vaultId})
            && t.vaults[e.vaultId].creator == e.owner && !t.vaults[e.vaultId].isActive
  {}

  lemma LinkedWith(before: map<nat, Vault>, after: map<nat, Vault>, unlocks: map<nat, E.World>, v: nat, w: E.World)
    requires Linked(before, unlocks) && v in after && after.Keys == before.Keys + {v}
    requires SameVaults(before - {v}, after - {v}) && SameRecord(after[v], w)
    ensures Linked(after, unlocks[v := w])
  {
    forall u | u in unlocks[v := w]
      ensures u in after && SameRecord(after[u], unlocks[v := w][u])
    {
      if u != v {
        assert u in before - {v};
        assert (after - {v})[u] == after[u] && (before - {v})[u] == before[u];
      }
    }
  }

  lemma UnlocksOkWith(unlocks: map<nat, E.World>, v: nat, w: E.World, now: Time)
    requires UnlocksOk(unlocks, now) && E.Invariant(w) && w.now == now
    ensures UnlocksOk(unlocks[v := w], now)
  {
    hide E.Invariant;
  }

  lemma AccessLinked(s: Store, direct: set<nat>, unlocks: map<nat, E.World>, e: A.Event, now: Time)
    requires A.Sound(s, direct, None) && A.Step(s, e, now).Done?
    requires Linked(s.vaults, unlocks) && UnlocksOk(unlocks, now)
    ensures var t := A.Step(s, e, now).state;
            Linked(t.vaults, UnlocksAfter(unlocks, e, t.vaultCount, now))
            && UnlocksOk(UnlocksAfter(unlocks, e, t.vaultCount, now), now)
  {
    hide A.Sound, A.Step, SameVaults, E.Invariant, E.Advance, E.Begin;
    var t := A.Step(s, e, now).state;
    if e.CreateVault? {
      CreateVaultFrame(s, direct, e, now);
      BeginHolds(e.creator, now);
      NewVaults(s.vaults, t.vaultCount);
      LinkedWith(s.vaults, t.vaults, unlocks, t.vaultCount, E.Begin(e.creator, now));
      UnlocksOkWith(unlocks, t.vaultCount, E.Begin(e.creator, now), now);
    } else if e.Deactivate? {
      DeactivateFrame(s, e, now);
      var w := E.Advance(unlocks[e.vaultId], E.Call(E.Deactivate(e.owner), now));
      AdvanceHolds(unlocks[e.vaultId], E.Deactivate(e.owner), now);
      LinkedWith(s.vaults, t.vaults, unlocks, e.vaultId, w);
      UnlocksOkWith(unlocks, e.vaultId, w, now);
    } else {
      AccessFrame(s, direct, e, now);
      LinkedSame(s.vaults, t.vaults, unlocks);
    }
  }

  lemma NewVaults(vaults: map<nat, Vault>, v: nat)
    requires v !in vaults
    ensures vaults - {v} == vaults
  {}

  lemma LinkedSame(before: map<nat, Vault>, after: map<nat, Vault>, unlocks: map<nat, E.World>)
    requires Linked(before, unlocks) && SameVaults(before, after)
    ensures Linked(after, unlocks)
  {}

  lemma AccessSound(c: Joint, e: A.Event, condition: E.Condition, now: Time)
    requires A.Sound(c.store, c.direct, None)
    ensures var d := AccessStep(c, e, condition, now); A.Sound(d.store, d.direct, None)
  {
    A.StepSound(c.store, c.direct, Answered(c, e, now), now);
    hide A.Sound, A.Step, E.Advance, E.Begin;
  }

  lemma StepJoined(c: Joint, e: Event, before: Time, now: Time)
    requires Joined(c, before) && NotBefore(now, before)
    ensures Joined(Step(c, e, now), now)
  {
    LaterOk(c.unlocks, before, now);
    match e
    case Access(event, condition) =>
      hide A.Sound, Linked, UnlocksOk;
      AccessSound(c, event, condition, now);
      if A.Step(c.store, Answered(c, event, now), now).Done? {
        AccessLinked(c.store, c.direct, c.unlocks, Answered(c, event, now), now);
      }
    case Unlock(v, op) => UnlockJoined(c, v, op, now);
  }

  lemma UnlockJoined(c: Joint, v: nat, op: E.Op, now: Time)
    requires Joined(c, now)
    ensures Joined(Step(c, Unlock(v, op), now), now)
  {
    if v in c.unlocks && !op.Deactivate? {
      hide A.Sound, E.Invariant, E.Advance, SameVaults;
      var w := E.Advance(c.unlocks[v], E.Call(op, now));
      AdvanceHolds(c.unlocks[v], op, now);
      UnlocksOkWith(c.unlocks, v, w, now);
      SameVaultsWithout(c.store.vaults, v);
      LinkedWith(c.store.vaults, c.store.vaults, c.unlocks, v, w);
    }
  }

  lemma SameVaultsWithout(vaults: map<nat, Vault>, v: nat)
    requires v in vaults
    ensures SameVaults(vaults - {v}, vaults - {v}) && vaults.Keys == vaults.Keys + {v}
  {}

  // When the first n calls ended; before any call, when the first begins.
  function TimeOf(calls: seq<Call>, n: nat): Time
    requires n <= |calls| && |calls| > 0
  {
    calls[if n == 0 then 0 else n - 1].now
  }

  lemma {:induction false} RunJoined(calls: seq<Call>, n: nat)
    requires n <= |calls| && |calls| > 0 && Chronological(calls)
    ensures Joined(Run(calls, n), TimeOf(calls, n))
  {
    if n == 0 {
      NewJoined(calls[0].now);
    } else {
      hide Joined, Step;
      RunJoined(calls, n - 1);
      StepJoined(Run(calls, n - 1), calls[n - 1].event, TimeOf(calls, n - 1), calls[n - 1].now);
    }
  }

  lemma NewJoined(now: Time)
    ensures Joined(NEW, now)
  {
    A.EmptySound();
    hide A.Sound;
  }

  // ----- where requests come from -----

  // Call m made the request: its document's release condition held at that moment.
  ghost predicate MadeBy(calls: seq<Call>, m: nat, q: Request)
    requires m < |calls|
  {
    var e, c := calls[m].event, Run(calls, m);
    && e.Access? && e.event.RequestAccess? && e.event.documentId == q.documentId && e.event.requester == q.requester
    && calls[m].now.timestamp + REQUEST_PERIOD == q.expiresAt
    && ReleaseOf(c, q.documentId, calls[m].now) == Done(true)
  }

  // A request after a call was there before, or the call made it.
  lemma NewRequest(c: Joint, e: A.Event, condition: E.Condition, now: Time, r: nat)
    requires A.Sound(c.store, c.direct, None)
    requires r in AccessStep(c, e, condition, now).store.requests && r !in c.store.requests
    ensures var q := AccessStep(c, e, condition, now).store.requests[r];
            && e.RequestAccess? && e.documentId == q.documentId && e.requester == q.requester
            && now.timestamp + REQUEST_PERIOD == q.expiresAt && ReleaseOf(c, q.documentId, now) == Done(true)
  {
    if A.Step(c.store, Answered(c, e, now), now).Done? {
      AccessFrame(c.store, c.direct, Answered(c, e, now), now);
      if !e.RequestAccess? {
        hide *;
      }
    }
  }

  // Documents stay, in their vault and under their condition.
  ghost predicate DocsKept(c: Joint, d: Joint) {
    forall id :: id in c.store.docs ==>
      id in d.store.docs && d.store.docs[id] == c.store.docs[id] && ConditionOf(d, id) == ConditionOf(c, id)
  }

  lemma StepKeepsDocs(c: Joint, e: Event, now: Time)
    requires A.Sound(c.store, c.direct, None)
    ensures DocsKept(c, Step(c, e, now))
  {
    if e.Access? && A.Step(c.store, Answered(c, e.event, now), now).Done? {
      AccessDocs(c.store, c.direct, Answered(c, e.event, now), now);
      hide A.Sound, A.Step, E.Advance, E.Begin, ReleaseOf;
    }
  }

  // Only adding a document changes the documents, and it adds a new one.
  lemma AccessDocs(s: Store, direct: set<nat>, e: A.Event, now: Time)
    requires A.Sound(s, direct, None) && A.Step(s, e, now).Done?
    ensures var t := A.Step(s, e, now).state;
            && (forall id :: id in s.docs ==> id in t.docs && t.docs[id] == s.docs[id])
            && (e.AddDocument? ==> t.docCount !in s.docs)
  {
    AccessFrame(s, direct, e, now);
    if e.AddDocument? {
      hide A.RequestsOk, A.FlagsOk, A.AccessOk, A.Justified, A.VaultsOk;
      assert s.docCount + 1 !in s.docs;
    } else {
      hide *;
    }
  }

  lemma DocsKeptOn(c: Joint, d: Joint, e: Joint)
    requires DocsKept(c, d) && DocsKept(d, e)
    ensures DocsKept(c, e)
  {
    hide ConditionOf;
  }

  lemma {:induction false} RunKeepsDocs(calls: seq<Call>, m: nat, n: nat)
    requires m <= n <= |calls| && Chronological(calls)
    ensures DocsKept(Run(calls, m), Run(calls, n))
    decreases n
  {
    if m < n {
      RunKeepsDocs(calls, m, n - 1);
      RunJoined(calls, n - 1);
      StepKeepsDocs(Run(calls, n - 1), calls[n - 1].event, calls[n - 1].now);
      hide DocsKept, Joined, Step;
      DocsKeptOn(Run(calls, m), Run(calls, n - 1), Run(calls, n));
    }
  }

  lemma StepGrowsRequests(c: Joint, e: Event, now: Time)
    requires A.Sound(c.store, c.direct, None)
    ensures A.RequestsGrow(c.store, Step(c, e, now).store)
  {
    if e.Access? {
      A.StepGrows(c.store, c.direct, Answered(c, e.event, now), now);
      hide A.Sound, A.Step, A.RequestsGrow, E.Advance, E.Begin, ReleaseOf;
    }
  }

  lemma MadeStays(calls: seq<Call>, m: nat, q: Request, p: Request)
    requires m < |calls| && MadeBy(calls, m, q) && A.Grows(q, p)
    ensures MadeBy(calls, m, p)
  {
    hide Run, ReleaseOf;
  }

  // Every request was made by a call, at a moment when its document's release condition held.
  lemma {:induction false} RequestWasMade(calls: seq<Call>, n: nat, r: nat) returns (m: nat)
    requires n <= |calls| && Chronological(calls) && r in Run(calls, n).store.requests
    ensures m < n && MadeBy(calls, m, Run(calls, n).store.requests[r])
  {
    hide MadeBy, Step;
    var c, call := Run(calls, n - 1), calls[n - 1];
    RunJoined(calls, n - 1);
    if r in c.store.requests {
      m := RequestWasMade(calls, n - 1, r);
      StepGrowsRequests(c, call.event, call.now);
      MadeStays(calls, m, c.store.requests[r], Run(calls, n).store.requests[r]);
    } else {
      m := n - 1;
      MadeNow(calls, n, r);
    }
  }

  lemma MadeNow(calls: seq<Call>, n: nat, r: nat)
    requires 0 < n <= |calls| && A.Sound(Run(calls, n - 1).store, Run(calls, n - 1).direct, None)
    requires r in Run(calls, n).store.requests && r !in Run(calls, n - 1).store.requests
    ensures MadeBy(calls, n - 1, Run(calls, n).store.requests[r])
  {
    hide A.Sound, AccessStep, ReleaseOf;
    var c, call := Run(calls, n - 1), calls[n - 1];
    if call.event.Access? {
      NewRequest(c, call.event.event, call.event.condition, call.now, r);
    }
  }

  // The owner counted as dead, or the full emergency delay since the enabling in force had passed.
  ghost predicate Waited(c: Joint, documentId: nat, now: Time) {
    && documentId in c.store.docs && c.store.docs[documentId].vaultId in c.unlocks
    && var w := c.unlocks[c.store.docs[documentId].vaultId];
       E.Silent(w.history, now) || E.DelayPassed(w, now)
  }

  lemma ReleasedWaited(c: Joint, documentId: nat, before: Time, now: Time)
    requires Joined(c, before) && NotBefore(now, before)
    requires ConditionOf(c, documentId) == E.EmergencyOnly && ReleaseOf(c, documentId, now) == Done(true)
    ensures Waited(c, documentId, now)
  {
    hide A.Sound, Linked, E.Silent, E.DelayPassed, E.Invariant, E.Released;
    var w := c.unlocks[c.store.docs[documentId].vaultId];
    if !E.Silent(w.history, now) {
      E.ReleasedAfterDelay(w, now);
    }
  }

  // Over runs of both machines: an access request for an emergency-only document was made by a call at a moment
  // when its owner counted as dead or the full emergency delay had passed.
  lemma EmergencyRequestsWait(calls: seq<Call>, r: nat) returns (m: nat)
    requires Chronological(calls) && r in Run(calls, |calls|).store.requests
    requires ConditionOf(Run(calls, |calls|), Run(calls, |calls|).store.requests[r].documentId) == E.EmergencyOnly
    ensures var q := Run(calls, |calls|).store.requests[r];
            m < |calls| && MadeBy(calls, m, q) && Waited(Run(calls, m), q.documentId, calls[m].now)
  {
    m := RequestWasMade(calls, |calls|, r);
    hide Run, Waited, Joined, ReleaseOf, ConditionOf;
    var d := Run(calls, |calls|).store.requests[r].documentId;
    RunKeepsDocs(calls, m, |calls|);
    RunJoined(calls, m);
    ReleasedDocument(Run(calls, m), d, calls[m].now);
    ReleasedWaited(Run(calls, m), d, TimeOf(calls, m), calls[m].now);
  }

  lemma ReleasedDocument(c: Joint, documentId: nat, now: Time)
    requires ReleaseOf(c, documentId, now).Done?
    ensures documentId in c.store.docs
  {}

  // Whoever has access to an emergency-only document uploaded it, or a request of theirs was approved by a
  // quorum (or a threshold signature) and had been made after that wait.
  lemma EmergencyAccessWaits(calls: seq<Call>, documentId: nat, user: Address)
    requires Chronological(calls) && HasAccess(Run(calls, |calls|).store, documentId, user)
    requires ConditionOf(Run(calls, |calls|), documentId) == E.EmergencyOnly
    ensures var c := Run(calls, |calls|);
            && documentId in c.store.docs
            && (c.store.docs[documentId].uploadedBy == user
                || exists r: nat, m: nat | m < |calls| :: A.HasQuorum(c.store, c.direct, documentId, user, r)
                                             && MadeBy(calls, m, c.store.requests[r])
                                             && Waited(Run(calls, m), documentId, calls[m].now))
  {
    var c := Run(calls, |calls|);
    RunJoined(calls, |calls|);
    A.SoundAccess(c.store, c.direct, documentId, user);
    if c.store.docs[documentId].uploadedBy != user {
      hide Run, Waited, MadeBy, Joined, A.Quorum;
      var r :| A.HasQuorum(c.store, c.direct, documentId, user, r);
      var m := EmergencyRequestsWait(calls, r);
    }
  }
}

/** Whole runs of the access entry points of contracts-stellar/src/lib.rs, told by their calls: where access,
    approvals, guardians and keys come from, what a revocation and a deactivation put an end to. */
module AccessHistory {
  import opened Text
  import opened Ledger
  import opened Approvals
  import opened ApprovalRuns
  import opened ApprovalLaws

  function StoreAt(calls: seq<Call>, n: nat): Store
    requires n <= |calls|
  {
    Run(calls, n).store
  }

  // Call k completes.
  predicate Completes(calls: seq<Call>, k: nat)
    requires k < |calls|
  {
    Step(StoreAt(calls, k), calls[k].event, calls[k].now).Done?
  }

  lemma NextStore(calls: seq<Call>, k: nat)
    requires k < |calls|
    ensures StoreAt(calls, k + 1) == After(StoreAt(calls, k), Step(StoreAt(calls, k), calls[k].event, calls[k].now))
  {
    hide Step;
  }

  ghost predicate SoundStore(s: Store) {
    exists direct :: Sound(s, direct, None)
  }

  lemma SoundAt(calls: seq<Call>, n: nat)
    requires n <= |calls|
    ensures SoundStore(StoreAt(calls, n))
  {
    RunSound(calls, n);
    hide Sound;
    assert Sound(StoreAt(calls, n), Run(calls, n).history.direct, None);
  }

  // ----- one call -----

  // Request id for the document and user turned from pending to approved.
  predicate Decided(s: Store, t: Store, id: nat, documentId: nat, user: Address) {
    && id in s.requests && id in t.requests
    && s.requests[id].status.Pending? && IsApproval(t.requests[id], documentId, user)
  }

  predicate Revokes(e: Event, documentId: nat, user: Address) {
    || (e.RevokeAccess? && e.documentId == documentId && e.target == user)
    || (e.RelayRevoke? && e.documentId == documentId && e.target == user)
  }

  predicate Approves(e: Event) {
    e.Approve? || e.ApproveFhe? || e.ApproveBls? || e.ApproveThreshold?
  }

  lemma ApprovalLaw(s: Store, e: Event, now: Time)
    requires Approves(e) && Step(s, e, now).Done?
    ensures MayBeDecided(s, e.id, now)
    ensures var t := Step(s, e, now).state;
            && e.id in t.requests && t.requests == s.requests[e.id := t.requests[e.id]]
            && t.requests[e.id].documentId == s.requests[e.id].documentId && t.requests[e.id].requester == s.requests[e.id].requester
            && (if t.requests[e.id].status.Approved? then Granted(s, t, s.requests[e.id])
                else t.hasAccess == s.hasAccess && t.level == s.level)
            && SameVaults(s, t) && SameDocuments(s, t)
  {
    hide Step;
    match e
    case Approve(a, id) => ApproveLaw(s, a, id, now);
    case ApproveFhe(a, id, share) => ApproveFheLaw(s, a, id, share, now);
    case ApproveBls(id, gs, valid) => ApproveBlsLaw(s, id, gs, valid, now);
    case ApproveThreshold(id, verified) => ApproveThresholdLaw(s, id, verified, now);
  }

  // What each call leaves alone.
  ghost predicate Frames(s: Store, e: Event, t: Store) {
    && (!e.AddDocument? ==> SameDocuments(s, t))
    && (!e.CreateVault? && !e.AcceptInvite? && !e.Deactivate? ==> t.vaults == s.vaults)
    && (!e.CreateVault? && !e.AcceptInvite? ==> t.invites == s.invites)
    && (!e.RegisterBlsKey? ==> t.blsKeys == s.blsKeys)
    && (!e.RequestAccess? && !Approves(e) ==> t.requests == s.requests)
    && (!Approves(e) ==> t.approved == s.approved)
    && (!Approves(e) && !e.AddDocument? && !e.RevokeAccess? && !e.RelayRevoke? ==> SameAccess(s, t))
  }

  lemma Framed(s: Store, e: Event, now: Time)
    requires SoundStore(s) && Step(s, e, now).Done?
    ensures Frames(s, e, Step(s, e, now).state)
  {
    hide Step, SoundStore, Sound;
    match e
    case CreateVault(creator, guardians, threshold) => CreateVaultLaw(s, creator, guardians, threshold, now);
    case AcceptInvite(guardian, v) => AcceptInviteLaw(s, guardian, v, now);
    case Deactivate(owner, v) => DeactivateLaw(s, owner, v, now);
    case RegisterBlsKey(guardian, v, possessed) => RegisterBlsKeyLaw(s, guardian, v, possessed, now);
    case AddDocument(uploader, v, level, ok) => NewDocument(s, e, now);
    case RequestAccess(requester, d, released) => RequestAccessLaw(s, requester, d, released, now);
    case RevokeAccess(g, d, u) => RevokeLaw(s, g, d, u, now);
    case RelayRevoke(v, d, u, ok) => RelayRevokeLaw(s, v, d, u, ok, now);
    case _ => ApprovalLaw(s, e, now);
  }

  lemma NewDocument(s: Store, e: Event, now: Time)
    requires SoundStore(s) && e.AddDocument? && Step(s, e, now).Done?
    ensures var t := Step(s, e, now).state;
            && ActiveGuardian(s, e.vaultId, e.uploader) && t.docCount !in s.docs
            && t.docs == s.docs[t.docCount := Document(e.vaultId, e.uploader, e.level)]
            && OnlyAccessOf(s, t, t.docCount, e.uploader) && SameRequests(s, t) && SameVaults(s, t)
  {
    var direct :| Sound(s, direct, None);
    hide Step, Sound;
    AddDocumentLaw(s, direct, e.uploader, e.vaultId, e.level, e.wellFormed, now);
  }

  lemma Revocation(s: Store, e: Event, now: Time)
    requires (e.RevokeAccess? || e.RelayRevoke?) && Step(s, e, now).Done?
    ensures e.documentId in s.docs && Revoked(s, Step(s, e, now).state, e.documentId, e.target)
  {
    hide Step;
    match e
    case RevokeAccess(g, d, u) => RevokeLaw(s, g, d, u, now);
    case RelayRevoke(v, d, u, ok) => RelayRevokeLaw(s, v, d, u, ok, now);
  }

  // The call's effect on access, whichever it is.
  lemma AccessMoves(s: Store, e: Event, now: Time)
    requires SoundStore(s) && Step(s, e, now).Done?
    ensures var t := Step(s, e, now).state;
            && (e.AddDocument? ==> t.docCount !in s.docs && OnlyAccessOf(s, t, t.docCount, e.uploader))
            && (e.RevokeAccess? || e.RelayRevoke? ==> e.documentId in s.docs && Revoked(s, t, e.documentId, e.target))
            && (Approves(e) ==> e.id in s.requests && ActiveDocument(s, s.requests[e.id].documentId)
                                && e.id in t.requests && s.requests[e.id].status.Pending?
                                && (if t.requests[e.id].status.Approved? then Granted(s, t, s.requests[e.id])
                                    else t.hasAccess == s.hasAccess)
                                && t.requests[e.id].documentId == s.requests[e.id].documentId
                                && t.requests[e.id].requester == s.requests[e.id].requester)
            && (!Approves(e) && !e.AddDocument? && !e.RevokeAccess? && !e.RelayRevoke? ==> SameAccess(s, t))
  {
    Framed(s, e, now);
    if e.AddDocument? { NewDocument(s, e, now); }
    if e.RevokeAccess? || e.RelayRevoke? { Revocation(s, e, now); }
    if Approves(e) { ApprovalLaw(s, e, now); }
    hide Step, SoundStore, OnlyAccessOf, Revoked, Granted;
  }

  // Access is gained by uploading a new document, or by a decision on one's own request.
  lemma Gains(s: Store, e: Event, now: Time, documentId: nat, user: Address)
    requires SoundStore(s) && Step(s, e, now).Done?
    requires !HasAccess(s, documentId, user) && HasAccess(Step(s, e, now).state, documentId, user)
    ensures var t := Step(s, e, now).state;
            || (e.AddDocument? && documentId !in s.docs && user == e.uploader)
            || (Approves(e) && Decided(s, t, e.id, documentId, user))
  {
    AccessMoves(s, e, now);
    hide Step, SoundStore;
  }

  // Nothing but a revocation naming document and user takes access away.
  lemma Loses(s: Store, e: Event, now: Time, documentId: nat, user: Address)
    requires SoundStore(s) && Step(s, e, now).Done?
    requires HasAccess(s, documentId, user) && !HasAccess(Step(s, e, now).state, documentId, user)
    ensures Revokes(e, documentId, user)
  {
    AccessMoves(s, e, now);
    hide Step, SoundStore;
  }

  // ----- revocation -----

  // Call k decides request id of the user for the document.
  predicate DecidesAt(calls: seq<Call>, k: nat, id: nat, documentId: nat, user: Address)
    requires k < |calls|
  {
    Decided(StoreAt(calls, k), StoreAt(calls, k + 1), id, documentId, user)
  }

  // A call between m and n does.
  ghost predicate DecidedBetween(calls: seq<Call>, m: nat, n: nat, documentId: nat, user: Address)
    requires m <= n <= |calls|
  {
    exists k: nat, id: nat | m <= k < n :: DecidesAt(calls, k, id, documentId, user)
  }

  lemma WiderBetween(calls: seq<Call>, m: nat, n: nat, documentId: nat, user: Address)
    requires m < n <= |calls| && DecidedBetween(calls, m, n - 1, documentId, user)
    ensures DecidedBetween(calls, m, n, documentId, user)
  {
    hide DecidesAt;
    var k: nat, id: nat :| m <= k < n - 1 && DecidesAt(calls, k, id, documentId, user);
  }

  lemma DocumentsStay(s: Store, e: Event, now: Time, documentId: nat)
    requires SoundStore(s) && documentId in s.docs
    ensures documentId in After(s, Step(s, e, now)).docs
  {
    if Step(s, e, now).Done? {
      Framed(s, e, now);
      if e.AddDocument? { NewDocument(s, e, now); }
    }
    hide Step, SoundStore;
  }

  // Over runs: whoever has access to a document after a completed revocation of it had a request for it decided
  // after that revocation.
  lemma {:induction false} AccessAfterRevocation(calls: seq<Call>, m: nat, n: nat, documentId: nat, user: Address)
    requires m < n <= |calls| && Revokes(calls[m].event, documentId, user) && Completes(calls, m)
    ensures documentId in StoreAt(calls, n).docs
    ensures HasAccess(StoreAt(calls, n), documentId, user) ==> DecidedBetween(calls, m + 1, n, documentId, user)
    decreases n
  {
    hide Step, HasAccess, SoundStore, Decided, DecidedBetween;
    SoundAt(calls, n - 1);
    NextStore(calls, n - 1);
    var s, c := StoreAt(calls, n - 1), calls[n - 1];
    if n == m + 1 {
      RevokedNow(s, c.event, c.now, documentId, user);
      hide StoreAt;
    } else {
      AccessAfterRevocation(calls, m, n - 1, documentId, user);
      hide StoreAt;
      DocumentsStay(s, c.event, c.now, documentId);
      if HasAccess(StoreAt(calls, n), documentId, user) {
        if HasAccess(s, documentId, user) {
          WiderBetween(calls, m + 1, n, documentId, user);
        } else {
          Gains(s, c.event, c.now, documentId, user);
          DecidedLast(calls, m + 1, n, c.event.id, documentId, user);
        }
      }
    }
  }

  lemma DecidedLast(calls: seq<Call>, m: nat, n: nat, id: nat, documentId: nat, user: Address)
    requires m < n <= |calls| && Decided(StoreAt(calls, n - 1), StoreAt(calls, n), id, documentId, user)
    ensures DecidedBetween(calls, m, n, documentId, user)
  {
    hide StoreAt, Decided;
    assert DecidesAt(calls, n - 1, id, documentId, user);
  }

  lemma RevokedNow(s: Store, e: Event, now: Time, documentId: nat, user: Address)
    requires Revokes(e, documentId, user) && Step(s, e, now).Done?
    ensures var t := Step(s, e, now).state;
            !HasAccess(t, documentId, user) && documentId in t.docs
  {
    Revocation(s, e, now);
    hide Step;
  }

  // Over runs: access that was granted or held lasts until a revocation that names document and user.
  lemma {:induction false} AccessLasts(calls: seq<Call>, m: nat, n: nat, documentId: nat, user: Address)
    requires m <= n <= |calls| && HasAccess(StoreAt(calls, m), documentId, user)
    requires forall k :: m <= k < n && Revokes(calls[k].event, documentId, user) ==> !Completes(calls, k)
    ensures HasAccess(StoreAt(calls, n), documentId, user)
    decreases n
  {
    hide Step, HasAccess, SoundStore, StoreAt;
    if m < n {
      AccessLasts(calls, m, n - 1, documentId, user);
      SoundAt(calls, n - 1);
      NextStore(calls, n - 1);
      var s, c := StoreAt(calls, n - 1), calls[n - 1];
      if Step(s, c.event, c.now).Done? && !HasAccess(Step(s, c.event, c.now).state, documentId, user) {
        assert Completes(calls, n - 1);
        Loses(s, c.event, c.now, documentId, user);
      }
    }
  }

  // A decision gives access at once.
  lemma DecisionGrants(s: Store, e: Event, now: Time, id: nat)
    requires SoundStore(s) && Step(s, e, now).Done? && id in s.requests && s.requests[id].status.Pending?
    requires id in Step(s, e, now).state.requests && Step(s, e, now).state.requests[id].status.Approved?
    ensures HasAccess(Step(s, e, now).state, s.requests[id].documentId, s.requests[id].requester)
  {
    Framed(s, e, now);
    RequestsMove(s, e, now);
    if Approves(e) { ApprovalLaw(s, e, now); }
    hide Step, SoundStore;
  }

  // One request at most is made or changed, on a document of an active vault.
  lemma RequestsMove(s: Store, e: Event, now: Time)
    requires SoundStore(s) && Step(s, e, now).Done?
    ensures var t := Step(s, e, now).state;
            || t.requests == s.requests
            || (e.RequestAccess? && t.reqCount !in s.requests && OneRequest(s, t, t.reqCount) && t.requests[t.reqCount].status.Pending?)
            || (Approves(e) && e.id in s.requests && OneRequest(s, t, e.id))
  {
    if Approves(e) {
      ApprovalLaw(s, e, now);
    } else if e.RequestAccess? {
      var direct :| Sound(s, direct, None);
      assert s.reqCount + 1 !in s.requests;
      hide Step, Sound;
      RequestAccessLaw(s, e.requester, e.documentId, e.released, now);
    } else {
      Framed(s, e, now);
    }
    hide Step, SoundStore, Sound;
  }

  ghost predicate OneRequest(s: Store, t: Store, r: nat) {
    && r in t.requests && t.requests == s.requests[r := t.requests[r]] && ActiveDocument(s, t.requests[r].documentId)
    && (r in s.requests ==> s.requests[r].documentId == t.requests[r].documentId)
  }

  // ----- deactivation -----

  // The documents of vault v.
  ghost predicate SameDocumentsOf(s: Store, t: Store, v: nat) {
    forall d :: d in s.docs || d in t.docs ==>
      && (d in s.docs && s.docs[d].vaultId == v <==> d in t.docs && t.docs[d].vaultId == v)
      && (d in s.docs && s.docs[d].vaultId == v ==> t.docs[d] == s.docs[d])
  }

  predicate Concerns(s: Store, q: Request, v: nat) {
    q.documentId in s.docs && s.docs[q.documentId].vaultId == v
  }

  // Every request for them.
  ghost predicate SameRequestsOf(s: Store, t: Store, v: nat) {
    forall r :: r in t.requests && Concerns(t, t.requests[r], v) ==> r in s.requests && s.requests[r] == t.requests[r]
  }

  // Vault v with its documents and every request for them.
  ghost predicate Frozen(s: Store, t: Store, v: nat) {
    && v in s.vaults && v in t.vaults && t.vaults[v] == s.vaults[v]
    && SameDocumentsOf(s, t, v) && SameRequestsOf(s, t, v)
  }

  lemma FrozenOn(s: Store, t: Store, u: Store, v: nat)
    requires Frozen(s, t, v) && Frozen(t, u, v)
    ensures Frozen(s, u, v)
  {}

  lemma VaultStays(s: Store, e: Event, now: Time, v: nat)
    requires SoundStore(s) && v in s.vaults && !s.vaults[v].isActive && Step(s, e, now).Done?
    ensures var t := Step(s, e, now).state; v in t.vaults && t.vaults[v] == s.vaults[v]
  {
    Framed(s, e, now);
    var direct :| Sound(s, direct, None);
    assert s.vaultCount + 1 !in s.vaults;
    hide Step, SoundStore, Sound;
    match e
    case CreateVault(creator, guardians, threshold) => CreateVaultLaw(s, creator, guardians, threshold, now);
    case AcceptInvite(guardian, w) => AcceptInviteLaw(s, guardian, w, now);
    case Deactivate(owner, w) => DeactivateLaw(s, owner, w, now);
    case _ =>
  }

  lemma SameDocumentsStep(s: Store, e: Event, now: Time, v: nat)
    requires SoundStore(s) && v in s.vaults && !s.vaults[v].isActive && Step(s, e, now).Done?
    ensures SameDocumentsOf(s, Step(s, e, now).state, v)
  {
    Framed(s, e, now);
    if e.AddDocument? { NewDocument(s, e, now); }
    hide Step, SoundStore;
  }

  lemma SameRequestsStep(s: Store, e: Event, now: Time, v: nat)
    requires SoundStore(s) && v in s.vaults && !s.vaults[v].isActive && Step(s, e, now).Done?
    requires SameDocumentsOf(s, Step(s, e, now).state, v)
    ensures SameRequestsOf(s, Step(s, e, now).state, v)
  {
    RequestsMove(s, e, now);
    hide Step, SoundStore;
  }

  lemma FrozenStep(s: Store, e: Event, now: Time, v: nat)
    requires SoundStore(s) && v in s.vaults && !s.vaults[v].isActive
    ensures Frozen(s, After(s, Step(s, e, now)), v)
  {
    if Step(s, e, now).Done? {
      VaultStays(s, e, now, v);
      SameDocumentsStep(s, e, now, v);
      SameRequestsStep(s, e, now, v);
      hide Step, SoundStore, SameDocumentsOf, SameRequestsOf;
    }
  }

  // Over runs: from a completed deactivation on, the vault keeps its guardians and stays inactive, no document
  // joins it, and no request for its documents is made, approved or changed.
  lemma {:induction false} DeactivationIsFinal(calls: seq<Call>, m: nat, n: nat, owner: Address, v: nat)
    requires m < n <= |calls| && calls[m].event == Deactivate(owner, v) && Completes(calls, m)
    ensures v in StoreAt(calls, n).vaults && !StoreAt(calls, n).vaults[v].isActive
    ensures Frozen(StoreAt(calls, m + 1), StoreAt(calls, n), v)
    decreases n
  {
    hide Step, SoundStore, Frozen;
    NextStore(calls, n - 1);
    var s, c := StoreAt(calls, n - 1), calls[n - 1];
    if n == m + 1 {
      DeactivateLaw(s, owner, v, c.now);
      hide StoreAt;
      assert Frozen(StoreAt(calls, n), StoreAt(calls, n), v) by { FrozenSelf(StoreAt(calls, n), v); }
    } else {
      DeactivationIsFinal(calls, m, n - 1, owner, v);
      SoundAt(calls, n - 1);
      hide StoreAt;
      FrozenStep(s, c.event, c.now, v);
      FrozenVault(s, StoreAt(calls, n), v);
      FrozenOn(StoreAt(calls, m + 1), s, StoreAt(calls, n), v);
    }
  }

  lemma FrozenSelf(s: Store, v: nat)
    requires v in s.vaults
    ensures Frozen(s, s, v)
  {}

  lemma FrozenVault(s: Store, t: Store, v: nat)
    requires Frozen(s, t, v)
    ensures v in s.vaults && v in t.vaults && t.vaults[v] == s.vaults[v]
  {}

  // ----- where approvals and keys come from -----

  // The call speaks for guardian g on request id.
  predicate SpeaksFor(e: Event, id: nat, g: Address) {
    || (e.Approve? && e.id == id && e.approver == g)
    || (e.ApproveFhe? && e.id == id && e.approver == g)
    || (e.ApproveBls? && e.id == id && e.valid && g in e.guardians)
  }

  lemma {:induction false} NewcomersListed(approved: set<(nat, Address)>, id: nat, guardians: seq<Address>, n: nat)
    requires n <= |guardians|
    ensures forall g :: g in Newcomers(approved, id, guardians, n) ==> g in guardians
  {
    if n > 0 {
      NewcomersListed(approved, id, guardians, n - 1);
    }
  }

  // A call adds approvals only for guardians it speaks for, guardians of the document's vault at that time.
  lemma NewApproval(s: Store, e: Event, now: Time, id: nat, g: Address)
    requires SoundStore(s) && Step(s, e, now).Done? && (id, g) !in s.approved && (id, g) in Step(s, e, now).state.approved
    ensures SpeaksFor(e, id, g) && MayBeDecided(s, id, now) && g in VaultOf(s, id).guardians
  {
    if Approves(e) {
      match e
      case Approve(a, r) =>
        hide Step, Settled, SoundStore;
        ApproveLaw(s, a, r, now);
      case ApproveFhe(a, r, share) =>
        hide Step, Settled, ShareFits, SoundStore;
        ApproveFheLaw(s, a, r, share, now);
      case ApproveBls(r, gs, valid) =>
        hide Step, Settled, MayBeDecided, Newcomers, SoundStore;
        ApproveBlsLaw(s, r, gs, valid, now);
        NewcomersListed(s.approved, r, gs, |gs|);
        var i :| 0 <= i < |gs| && gs[i] == g;
        assert MayEndorse(s, r, gs[i]);
      case ApproveThreshold(r, verified) =>
        hide Step, Granted, SoundStore;
        ApproveThresholdLaw(s, r, verified, now);
    } else {
      Framed(s, e, now);
      hide Step;
    }
  }

  // Over runs: every approval on record was given by a completed call that speaks for that guardian, who was a
  // guardian of the vault then.
  lemma {:induction false} ApprovalWasGiven(calls: seq<Call>, n: nat, id: nat, g: Address) returns (k: nat)
    requires n <= |calls| && (id, g) in StoreAt(calls, n).approved
    ensures k < n && Completes(calls, k) && SpeaksFor(calls[k].event, id, g)
    ensures MayBeDecided(StoreAt(calls, k), id, calls[k].now) && g in VaultOf(StoreAt(calls, k), id).guardians
    decreases n
  {
    hide Step, SoundStore, SpeaksFor, MayBeDecided;
    NextStore(calls, n - 1);
    SoundAt(calls, n - 1);
    var s, c := StoreAt(calls, n - 1), calls[n - 1];
    if (id, g) in s.approved {
      k := ApprovalWasGiven(calls, n - 1, id, g);
    } else {
      k := n - 1;
      NewApproval(s, c.event, c.now, id, g);
    }
  }

  // A key joins only with a proof of possession, and only a guardian's.
  lemma NewKey(s: Store, e: Event, now: Time, v: nat, g: Address)
    requires SoundStore(s) && Step(s, e, now).Done? && (v, g) !in s.blsKeys && (v, g) in Step(s, e, now).state.blsKeys
    ensures e == RegisterBlsKey(g, v, true) && ActiveGuardian(s, v, g)
  {
    Framed(s, e, now);
    hide Step, SoundStore;
    if e.RegisterBlsKey? {
      RegisterBlsKeyLaw(s, e.guardian, e.vaultId, e.possessed, now);
    }
  }

  // Over runs: every registered key was registered by its guardian with a proof of possession.
  lemma {:induction false} KeyWasProved(calls: seq<Call>, n: nat, v: nat, g: Address) returns (k: nat)
    requires n <= |calls| && (v, g) in StoreAt(calls, n).blsKeys
    ensures k < n && Completes(calls, k) && calls[k].event == RegisterBlsKey(g, v, true) && ActiveGuardian(StoreAt(calls, k), v, g)
    decreases n
  {
    hide Step, ActiveGuardian, SoundStore;
    NextStore(calls, n - 1);
    SoundAt(calls, n - 1);
    var s, c := StoreAt(calls, n - 1), calls[n - 1];
    if (v, g) in s.blsKeys {
      k := KeyWasProved(calls, n - 1, v, g);
    } else {
      k := n - 1;
      NewKey(s, c.event, c.now, v, g);
    }
  }

  // ----- where guardians come from -----

  lemma InvitationsStand(s: Store, e: Event, now: Time, a: Address, i: nat)
    requires SoundStore(s) && Step(s, e, now).Done? && i < |InvitesOf(Step(s, e, now).state.invites, a)|
    ensures var invite := InvitesOf(Step(s, e, now).state.invites, a)[i];
            || (i < |InvitesOf(s.invites, a)| && SameInvite(InvitesOf(s.invites, a)[i], invite))
            || (e.CreateVault? && a in e.guardians && a != e.creator && invite.vaultId == Step(s, e, now).state.vaultCount
                && invite.expiresAt == now.timestamp + INVITE_PERIOD)
  {
    if e.CreateVault? {
      hide Step;
      CreateVaultLaw(s, e.creator, e.guardians, e.threshold, now);
    } else if e.AcceptInvite? {
      hide Step;
      AcceptInviteLaw(s, e.guardian, e.vaultId, now);
    } else {
      Framed(s, e, now);
      hide Step;
    }
  }

  predicate SameInvite(a: Invite, b: Invite) {
    a.vaultId == b.vaultId && a.expiresAt == b.expiresAt
  }

  // Call m created vault v and invited a; the invitation is good for a week.
  predicate InvitedBy(calls: seq<Call>, m: nat, v: nat, a: Address, expiresAt: nat)
    requires m < |calls|
  {
    var e := calls[m].event;
    && e.CreateVault? && Completes(calls, m) && StoreAt(calls, m + 1).vaultCount == v
    && a in e.guardians && a != e.creator && expiresAt == calls[m].now.timestamp + INVITE_PERIOD
  }

  lemma {:induction false} InvitationWasSent(calls: seq<Call>, n: nat, a: Address, i: nat) returns (m: nat)
    requires n <= |calls| && i < |InvitesOf(StoreAt(calls, n).invites, a)|
    ensures m < n
    ensures var invite := InvitesOf(StoreAt(calls, n).invites, a)[i]; InvitedBy(calls, m, invite.vaultId, a, invite.expiresAt)
    decreases n
  {
    hide Step, InvitesOf, SoundStore;
    if n == 0 {
      NoInvites(a);
    }
    NextStore(calls, n - 1);
    SoundAt(calls, n - 1);
    var s, c := StoreAt(calls, n - 1), calls[n - 1];
    if Step(s, c.event, c.now).Done? {
      InvitationsStand(s, c.event, c.now, a, i);
    }
    hide StoreAt;
    if i < |InvitesOf(s.invites, a)| && SameInvite(InvitesOf(s.invites, a)[i], InvitesOf(StoreAt(calls, n).invites, a)[i]) {
      m := InvitationWasSent(calls, n - 1, a, i);
    } else {
      m := n - 1;
    }
  }

  lemma NoInvites(a: Address)
    ensures InvitesOf(EMPTY.invites, a) == []
  {}

  // A guardian is the creator of a new vault, was one before, or accepts.
  lemma NewGuardian(s: Store, e: Event, now: Time, v: nat, g: Address)
    requires SoundStore(s) && Step(s, e, now).Done? && v in Step(s, e, now).state.vaults
    requires g in Step(s, e, now).state.vaults[v].guardians && g != Step(s, e, now).state.vaults[v].creator
    ensures || (v in s.vaults && g in s.vaults[v].guardians && g != s.vaults[v].creator)
            || e == AcceptInvite(g, v)
  {
    Framed(s, e, now);
    hide SoundStore, AddInvites, External, OpenInvite, Distinct;
    match e
    case CreateVault(creator, guardians, threshold) =>
    case AcceptInvite(guardian, w) =>
    case Deactivate(owner, w) =>
    case _ =>
  }

  // Over runs: a guardian besides the creator was listed when the vault was created, and accepted within a week.
  lemma {:induction false} GuardianWasInvited(calls: seq<Call>, n: nat, v: nat, g: Address) returns (m: nat, k: nat)
    requires n <= |calls| && v in StoreAt(calls, n).vaults
    requires g in StoreAt(calls, n).vaults[v].guardians && g != StoreAt(calls, n).vaults[v].creator
    ensures m < k < n && calls[k].event == AcceptInvite(g, v) && Completes(calls, k)
    ensures InvitedBy(calls, m, v, g, calls[m].now.timestamp + INVITE_PERIOD)
    ensures calls[k].now.timestamp < calls[m].now.timestamp + INVITE_PERIOD
    decreases n
  {
    hide Step, SoundStore, InvitesOf;
    NextStore(calls, n - 1);
    SoundAt(calls, n - 1);
    var s, c := StoreAt(calls, n - 1), calls[n - 1];
    if v in s.vaults && g in s.vaults[v].guardians && g != s.vaults[v].creator {
      m, k := GuardianWasInvited(calls, n - 1, v, g);
    } else {
      NewGuardian(s, c.event, c.now, v, g);
      k := n - 1;
      AcceptInviteLaw(s, g, v, c.now);
      var i: nat :| IsFirstOpen(InvitesOf(s.invites, g), v, i) && c.now.timestamp < InvitesOf(s.invites, g)[i].expiresAt;
      m := InvitationWasSent(calls, n - 1, g, i);
    }
  }
}

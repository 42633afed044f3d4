/** What every run of the entry points in Approvals keeps: who approved, who has access, and what the
    accumulators of encrypted shares hold. */
module ApprovalRuns {
  import opened Text
  import opened Ledger
  import opened Approvals
  import Fhe
  import FheOnChain

  // ----- invariants -----

  ghost predicate VaultsOk(vaults: map<nat, Vault>, count: nat) {
    forall v :: v in vaults ==>
      v <= count && Distinct(vaults[v].guardians) && vaults[v].creator in vaults[v].guardians && vaults[v].approvalThreshold >= 1
  }

  ghost predicate DocsOk(docs: map<nat, Document>, count: nat, vaults: map<nat, Vault>) {
    forall d :: d in docs ==> d <= count && docs[d].vaultId in vaults
  }

  // Approvals come from distinct guardians; a pending request has fewer of them than the threshold, an approved
  // one has enough unless a threshold signature decided it.
  ghost predicate Endorsed(q: Request, v: Vault, direct: bool) {
    && Distinct(q.approvedBy) && (forall a :: a in q.approvedBy ==> a in v.guardians)
    && (q.status.Pending? || q.status.Approved?)
    && (q.status.Pending? ==> |q.approvedBy| < v.approvalThreshold)
    && (q.status.Approved? && !direct ==> |q.approvedBy| >= v.approvalThreshold)
  }

  // The same while an entry point is adding approvals to the request.
  ghost predicate Open(q: Request, v: Vault) {
    Distinct(q.approvedBy) && (forall a :: a in q.approvedBy ==> a in v.guardians) && q.status.Pending?
  }

  ghost predicate RequestOk(q: Request, docs: map<nat, Document>, vaults: map<nat, Vault>, direct: bool, open: bool) {
    && q.documentId in docs && docs[q.documentId].vaultId in vaults
    && var v := vaults[docs[q.documentId].vaultId];
       if open then Open(q, v) else Endorsed(q, v, direct)
  }

  ghost predicate RequestsOk(requests: map<nat, Request>, count: nat, docs: map<nat, Document>, vaults: map<nat, Vault>,
                             direct: set<nat>, open: Option<nat>) {
    forall r :: r in requests ==> r <= count && RequestOk(requests[r], docs, vaults, r in direct, open == Some(r))
  }

  // The stored flags are the approvals.
  ghost predicate FlagsOk(approved: set<(nat, Address)>, requests: map<nat, Request>) {
    forall r: nat, a :: (r, a) in approved <==> r in requests && a in requests[r].approvedBy
  }

  // A level is stored exactly where access is granted, and is the document's.
  ghost predicate AccessOk(hasAccess: map<(nat, Address), bool>, level: map<(nat, Address), Level>, docs: map<nat, Document>) {
    forall d: nat, u ::
      && ((d, u) in level <==> (d, u) in hasAccess && hasAccess[(d, u)])
      && ((d, u) in level ==> d in docs && level[(d, u)] == docs[d].requiredAccess)
  }

  // Whoever has access uploaded the document or has an approved request for it.
  ghost predicate Justified(level: map<(nat, Address), Level>, docs: map<nat, Document>, requests: map<nat, Request>) {
    forall d: nat, u :: (d, u) in level ==> d in docs && (docs[d].uploadedBy == u || HasApproval(requests, d, u))
  }

  ghost predicate HasApproval(requests: map<nat, Request>, d: nat, u: Address) {
    exists r :: r in requests && IsApproval(requests[r], d, u)
  }

  predicate IsApproval(q: Request, d: nat, u: Address) {
    q.status.Approved? && q.documentId == d && q.requester == u
  }

  ghost predicate Sound(s: Store, direct: set<nat>, open: Option<nat>) {
    && VaultsOk(s.vaults, s.vaultCount)
    && DocsOk(s.docs, s.docCount, s.vaults)
    && RequestsOk(s.requests, s.reqCount, s.docs, s.vaults, direct, open)
    && FlagsOk(s.approved, s.requests)
    && AccessOk(s.hasAccess, s.level, s.docs)
    && Justified(s.level, s.docs, s.requests)
  }

  // ----- approvals -----

  lemma Opens(s: Store, direct: set<nat>, id: nat)
    requires Sound(s, direct, None) && id in s.requests && s.requests[id].status.Pending?
    ensures Sound(s, direct, Some(id))
  {
    forall r | r in s.requests
      ensures RequestOk(s.requests[r], s.docs, s.vaults, r in direct, Some(id) == Some(r))
    {
      assert RequestOk(s.requests[r], s.docs, s.vaults, r in direct, false);
    }
  }

  // Requests that differ in one entry, and there not in what an approval is about.
  lemma JustifiedKept(level: map<(nat, Address), Level>, docs: map<nat, Document>, requests: map<nat, Request>, id: nat, q: Request)
    requires Justified(level, docs, requests) && id in requests
    requires requests[id].status.Approved? ==> IsApproval(q, requests[id].documentId, requests[id].requester)
    ensures Justified(level, docs, requests[id := q])
  {
    forall d: nat, u | (d, u) in level
      ensures d in docs && (docs[d].uploadedBy == u || HasApproval(requests[id := q], d, u))
    {
      if docs[d].uploadedBy != u {
        var r :| r in requests && IsApproval(requests[r], d, u);
        assert IsApproval(requests[id := q][r], d, u);
      }
    }
  }

  lemma DistinctSnoc(s: seq<Address>, a: Address)
    requires Distinct(s) && a !in s
    ensures Distinct(s + [a])
  {}

  lemma EndorseSound(s: Store, direct: set<nat>, id: nat, g: Address)
    requires Sound(s, direct, Some(id)) && id in s.requests && ActiveDocument(s, s.requests[id].documentId)
    requires (id, g) !in s.approved && g in VaultOf(s, id).guardians
    ensures Sound(Endorse(s, id, g), direct, Some(id))
  {
    var t, q := Endorse(s, id, g), s.requests[id];
    var p := q.(approvedBy := q.approvedBy + [g]);
    JustifiedKept(s.level, s.docs, s.requests, id, p);
    hide VaultsOk, DocsOk, AccessOk, Justified;
    assert RequestOk(q, s.docs, s.vaults, id in direct, true);
    DistinctSnoc(q.approvedBy, g);
    assert RequestOk(p, s.docs, s.vaults, id in direct, true);
    FlagAdded(s.approved, s.requests, id, g);
  }

  lemma FlagAdded(approved: set<(nat, Address)>, requests: map<nat, Request>, id: nat, g: Address)
    requires FlagsOk(approved, requests) && id in requests
    ensures var q := requests[id];
            FlagsOk(approved + {(id, g)}, requests[id := q.(approvedBy := q.approvedBy + [g])])
  {}

  lemma {:induction false} EndorseAllSound(s: Store, direct: set<nat>, id: nat, guardians: seq<Address>, n: nat)
    requires Sound(s, direct, Some(id)) && id in s.requests && ActiveDocument(s, s.requests[id].documentId)
    requires n <= |guardians|
    ensures var r := EndorseAll(s, id, guardians, n);
            r.Done? ==> Sound(r.state, direct, Some(id)) && Same(s, r.state)
  {
    hide Sound;
    if n > 0 && EndorseAll(s, id, guardians, n - 1).Done? {
      EndorseAllSound(s, direct, id, guardians, n - 1);
      var before := EndorseAll(s, id, guardians, n - 1).state;
      if EndorseAll(s, id, guardians, n).Done? && (id, guardians[n - 1]) !in before.approved {
        EndorseSound(before, direct, id, guardians[n - 1]);
      }
    }
  }

  // Endorsing touches approvals only.
  predicate Same(s: Store, t: Store) {
    && t.accumulators == s.accumulators && t.accumulated == s.accumulated
    && t.requests.Keys == s.requests.Keys
  }

  lemma GrantRequests(s: Store, direct: set<nat>, id: nat)
    requires Sound(s, direct, Some(id)) && id in s.requests && ActiveDocument(s, s.requests[id].documentId)
    requires id in direct || |s.requests[id].approvedBy| >= VaultOf(s, id).approvalThreshold
    ensures RequestsOk(Grant(s, id).requests, s.reqCount, s.docs, s.vaults, direct, None)
    ensures FlagsOk(s.approved, Grant(s, id).requests)
  {
    hide VaultsOk, DocsOk, AccessOk, Justified;
    var t := Grant(s, id);
    forall r | r in t.requests
      ensures r <= s.reqCount && RequestOk(t.requests[r], s.docs, s.vaults, r in direct, false)
    {
      assert RequestOk(s.requests[r], s.docs, s.vaults, r in direct, Some(id) == Some(r));
    }
  }

  lemma GrantAccess(s: Store, direct: set<nat>, id: nat)
    requires Sound(s, direct, Some(id)) && id in s.requests && s.requests[id].documentId in s.docs
    ensures AccessOk(Grant(s, id).hasAccess, Grant(s, id).level, s.docs)
    ensures Justified(Grant(s, id).level, s.docs, Grant(s, id).requests)
  {
    var t, q := Grant(s, id), s.requests[id];
    JustifiedKept(s.level, s.docs, s.requests, id, t.requests[id]);
    assert IsApproval(t.requests[id], q.documentId, q.requester);
    assert HasApproval(t.requests, q.documentId, q.requester);
    hide VaultsOk, DocsOk, RequestsOk, FlagsOk, HasApproval;
  }

  lemma GrantSound(s: Store, direct: set<nat>, id: nat)
    requires Sound(s, direct, Some(id)) && id in s.requests && ActiveDocument(s, s.requests[id].documentId)
    requires id in direct || |s.requests[id].approvedBy| >= VaultOf(s, id).approvalThreshold
    ensures Sound(Grant(s, id), direct, None)
  {
    GrantRequests(s, direct, id);
    GrantAccess(s, direct, id);
    hide VaultsOk, DocsOk, RequestsOk, FlagsOk, AccessOk, Justified;
  }

  lemma ConcludeSound(s: Store, direct: set<nat>, id: nat)
    requires Sound(s, direct, Some(id)) && id in s.requests && ActiveDocument(s, s.requests[id].documentId)
    ensures Sound(Conclude(s, id, VaultOf(s, id).approvalThreshold), direct, None)
  {
    if |s.requests[id].approvedBy| >= VaultOf(s, id).approvalThreshold {
      GrantSound(s, direct, id);
    } else {
      hide VaultsOk, DocsOk, FlagsOk, AccessOk, Justified;
      forall r | r in s.requests
        ensures r <= s.reqCount && RequestOk(s.requests[r], s.docs, s.vaults, r in direct, false)
      {
        assert RequestOk(s.requests[r], s.docs, s.vaults, r in direct, Some(id) == Some(r));
      }
    }
  }

  // ----- every entry point -----

  datatype Event =
    | CreateVault(creator: Address, guardians: seq<Address>, threshold: nat)
    | AcceptInvite(guardian: Address, vaultId: nat)
    | Deactivate(owner: Address, vaultId: nat)
    | RegisterBlsKey(guardian: Address, vaultId: nat, possessed: bool)
    | AddDocument(uploader: Address, vaultId: nat, level: Level, wellFormed: bool)
    | RequestAccess(requester: Address, documentId: nat, released: Outcome<bool>)
    | Approve(approver: Address, id: nat)
    | ApproveThreshold(id: nat, verified: bool)
    | ApproveBls(id: nat, guardians: seq<Address>, valid: bool)
    | ApproveFhe(approver: Address, id: nat, share: seq<nat>)
    | RevokeAccess(guardian: Address, documentId: nat, target: Address)
    | RelayRevoke(linkedVault: nat, documentId: nat, target: Address, authentic: bool)

  function Step(s: Store, e: Event, now: Time): Outcome<Store> {
    match e
    case CreateVault(creator, guardians, threshold) => CreateVaultStep(s, creator, guardians, threshold, now)
    case AcceptInvite(guardian, vaultId) => AcceptInviteStep(s, guardian, vaultId, now)
    case Deactivate(owner, vaultId) => DeactivateStep(s, owner, vaultId)
    case RegisterBlsKey(guardian, vaultId, possessed) => RegisterBlsKeyStep(s, guardian, vaultId, possessed)
    case AddDocument(uploader, vaultId, level, wellFormed) => AddDocumentStep(s, uploader, vaultId, level, wellFormed)
    case RequestAccess(requester, documentId, released) => RequestAccessStep(s, requester, documentId, released, now)
    case Approve(approver, id) => ApproveStep(s, approver, id, now)
    case ApproveThreshold(id, verified) => ApproveThresholdStep(s, id, verified, now)
    case ApproveBls(id, guardians, valid) => ApproveBlsStep(s, id, guardians, valid, now)
    case ApproveFhe(approver, id, share) => ApproveFheStep(s, approver, id, share, now)
    case RevokeAccess(guardian, documentId, target) => RevokeStep(s, guardian, documentId, target)
    case RelayRevoke(linkedVault, documentId, target, authentic) => RelayRevokeStep(s, linkedVault, documentId, target, authentic)
  }

  function Larger(a: nat, b: nat): nat {
    if a < b then b else a
  }

  // A vault is new, or keeps its threshold and all its guardians.
  lemma VaultSet(s: Store, direct: set<nat>, vaultId: nat, v: Vault)
    requires Sound(s, direct, None)
    requires Distinct(v.guardians) && v.creator in v.guardians && v.approvalThreshold >= 1
    requires vaultId in s.vaults ==>
               v.approvalThreshold == s.vaults[vaultId].approvalThreshold
               && forall a :: a in s.vaults[vaultId].guardians ==> a in v.guardians
    ensures var vaults := s.vaults[vaultId := v];
            && VaultsOk(vaults, Larger(s.vaultCount, vaultId))
            && DocsOk(s.docs, s.docCount, vaults)
            && RequestsOk(s.requests, s.reqCount, s.docs, vaults, direct, None)
  {
    hide FlagsOk, AccessOk, Justified;
    var vaults := s.vaults[vaultId := v];
    forall r | r in s.requests
      ensures r <= s.reqCount && RequestOk(s.requests[r], s.docs, vaults, r in direct, false)
    {
      assert RequestOk(s.requests[r], s.docs, s.vaults, r in direct, false);
    }
  }

  lemma CreateVaultSound(s: Store, direct: set<nat>, e: Event, now: Time)
    requires Sound(s, direct, None) && e.CreateVault? && Step(s, e, now).Done?
    ensures Sound(Step(s, e, now).state, direct, None)
  {
    assert s.vaultCount + 1 !in s.vaults;
    VaultSet(s, direct, s.vaultCount + 1, Vault(e.creator, [e.creator], e.threshold, true));
    hide VaultsOk, DocsOk, RequestsOk, FlagsOk, AccessOk, Justified, AddInvites, Distinct;
  }

  lemma AcceptInviteSound(s: Store, direct: set<nat>, e: Event, now: Time)
    requires Sound(s, direct, None) && e.AcceptInvite? && Step(s, e, now).Done?
    ensures Sound(Step(s, e, now).state, direct, None)
  {
    var v := s.vaults[e.vaultId];
    assert e.vaultId <= s.vaultCount;
    DistinctSnoc(v.guardians, e.guardian);
    VaultSet(s, direct, e.vaultId, v.(guardians := v.guardians + [e.guardian]));
    hide VaultsOk, DocsOk, RequestsOk, FlagsOk, AccessOk, Justified, OpenInvite;
  }

  lemma DeactivateSound(s: Store, direct: set<nat>, e: Event, now: Time)
    requires Sound(s, direct, None) && e.Deactivate? && Step(s, e, now).Done?
    ensures Sound(Step(s, e, now).state, direct, None)
  {
    assert e.vaultId <= s.vaultCount;
    VaultSet(s, direct, e.vaultId, s.vaults[e.vaultId].(isActive := false));
    hide VaultsOk, DocsOk, RequestsOk, FlagsOk, AccessOk, Justified;
  }

  lemma RequestsWithDoc(s: Store, direct: set<nat>, id: nat, doc: Document)
    requires RequestsOk(s.requests, s.reqCount, s.docs, s.vaults, direct, None) && id !in s.docs
    ensures RequestsOk(s.requests, s.reqCount, s.docs[id := doc], s.vaults, direct, None)
  {
    forall r | r in s.requests
      ensures r <= s.reqCount && RequestOk(s.requests[r], s.docs[id := doc], s.vaults, r in direct, false)
    {
      assert RequestOk(s.requests[r], s.docs, s.vaults, r in direct, false);
    }
  }

  lemma AccessWithDoc(s: Store, id: nat, doc: Document)
    requires AccessOk(s.hasAccess, s.level, s.docs) && Justified(s.level, s.docs, s.requests) && id !in s.docs
    ensures AccessOk(s.hasAccess[(id, doc.uploadedBy) := true], s.level[(id, doc.uploadedBy) := doc.requiredAccess],
                     s.docs[id := doc])
    ensures Justified(s.level[(id, doc.uploadedBy) := doc.requiredAccess], s.docs[id := doc], s.requests)
  {
    hide HasApproval;
  }

  lemma AddDocumentSound(s: Store, direct: set<nat>, e: Event, now: Time)
    requires Sound(s, direct, None) && e.AddDocument? && Step(s, e, now).Done?
    ensures Sound(Step(s, e, now).state, direct, None)
  {
    var doc := Document(e.vaultId, e.uploader, e.level);
    hide VaultsOk, FlagsOk, RequestsOk, AccessOk, Justified;
    assert s.docCount + 1 !in s.docs;
    RequestsWithDoc(s, direct, s.docCount + 1, doc);
    AccessWithDoc(s, s.docCount + 1, doc);
  }

  lemma JustifiedWithRequest(s: Store, id: nat, q: Request)
    requires Justified(s.level, s.docs, s.requests) && id !in s.requests
    ensures Justified(s.level, s.docs, s.requests[id := q])
  {
    forall d: nat, u | (d, u) in s.level
      ensures d in s.docs && (s.docs[d].uploadedBy == u || HasApproval(s.requests[id := q], d, u))
    {
      if s.docs[d].uploadedBy != u {
        var r :| r in s.requests && IsApproval(s.requests[r], d, u);
        assert IsApproval(s.requests[id := q][r], d, u);
      }
    }
  }

  lemma FreshRequest(s: Store, direct: set<nat>, id: nat, q: Request)
    requires RequestsOk(s.requests, s.reqCount, s.docs, s.vaults, direct, None) && FlagsOk(s.approved, s.requests)
    requires VaultsOk(s.vaults, s.vaultCount) && id == s.reqCount + 1
    requires ActiveDocument(s, q.documentId) && q.approvedBy == [] && q.status == Pending
    ensures RequestsOk(s.requests[id := q], id, s.docs, s.vaults, direct, None) && FlagsOk(s.approved, s.requests[id := q])
  {
    assert s.vaults[s.docs[q.documentId].vaultId].approvalThreshold >= 1;
    assert RequestOk(q, s.docs, s.vaults, id in direct, false);
    hide RequestOk;
  }

  lemma FreshId(requests: map<nat, Request>, count: nat, docs: map<nat, Document>, vaults: map<nat, Vault>, direct: set<nat>)
    requires RequestsOk(requests, count, docs, vaults, direct, None)
    ensures count + 1 !in requests
  {
    hide RequestOk;
  }

  lemma RequestAccessSound(s: Store, direct: set<nat>, e: Event, now: Time)
    requires Sound(s, direct, None) && e.RequestAccess? && Step(s, e, now).Done?
    ensures Sound(Step(s, e, now).state, direct, None)
  {
    var id := s.reqCount + 1;
    hide VaultsOk, DocsOk, RequestsOk, FlagsOk, AccessOk, Justified;
    FreshId(s.requests, s.reqCount, s.docs, s.vaults, direct);
    var q := Request(e.documentId, e.requester, [], Pending, now.timestamp + REQUEST_PERIOD);
    FreshRequest(s, direct, id, q);
    JustifiedWithRequest(s, id, q);
  }

  lemma ApproveSound(s: Store, direct: set<nat>, e: Event, now: Time)
    requires Sound(s, direct, None) && (e.Approve? || e.ApproveFhe?) && Step(s, e, now).Done?
    ensures Sound(Step(s, e, now).state, direct, None)
  {
    hide VaultsOk, DocsOk, RequestsOk, FlagsOk, AccessOk, Justified;
    Opens(s, direct, e.id);
    EndorseSound(s, direct, e.id, e.approver);
    var t := Endorse(s, e.id, e.approver);
    if e.ApproveFhe? {
      SubmitSound(t, direct, e.id, e.approver, e.share);
      ConcludeSound(Submit(t, e.id, e.approver, e.share).state, direct, e.id);
    } else {
      ConcludeSound(t, direct, e.id);
    }
  }

  // Submitting writes the share and the accumulator only.
  lemma SubmitFrame(s: Store, id: nat, approver: Address, share: seq<nat>)
    requires Submit(s, id, approver, share).Done?
    ensures var t := Submit(s, id, approver, share).state;
            t == s.(fheShares := t.fheShares, accumulators := t.accumulators, accumulated := t.accumulated)
  {
    hide *;
    var acc := FheOnChain.Accumulate(AccumulatorOf(s, id), share);
    SubmitIs(s, id, approver, share, acc);
  }

  lemma SubmitIs(s: Store, id: nat, approver: Address, share: seq<nat>, acc: Option<FheOnChain.Accumulator>)
    requires acc == FheOnChain.Accumulate(AccumulatorOf(s, id), share)
    ensures Submit(s, id, approver, share)
         == if share == [] then Done(s)
            else if acc.None? || acc.value.count > U32_MAX then Reverted
            else Done(s.(fheShares := s.fheShares[(id, approver) := share],
                         accumulators := s.accumulators[id := acc.value.bytes],
                         accumulated := s.accumulated[id := acc.value.count]))
  {
    hide FheOnChain.Accumulate, AccumulatorOf;
  }

  lemma SubmitSound(s: Store, direct: set<nat>, id: nat, approver: Address, share: seq<nat>)
    requires Sound(s, direct, Some(id)) && Submit(s, id, approver, share).Done?
    ensures var t := Submit(s, id, approver, share).state;
            && Sound(t, direct, Some(id))
            && t.requests == s.requests && t.docs == s.docs && t.vaults == s.vaults
  {
    hide VaultsOk, DocsOk, RequestsOk, FlagsOk, AccessOk, Justified, Submit;
    SubmitFrame(s, id, approver, share);
  }

  lemma ApproveThresholdSound(s: Store, direct: set<nat>, e: Event, now: Time)
    requires Sound(s, direct, None) && e.ApproveThreshold? && Step(s, e, now).Done?
    ensures Sound(Step(s, e, now).state, direct + {e.id}, None)
  {
    Opens(s, direct, e.id);
    forall r | r in s.requests
      ensures r <= s.reqCount && RequestOk(s.requests[r], s.docs, s.vaults, r in direct + {e.id}, Some(e.id) == Some(r))
    {
      assert RequestOk(s.requests[r], s.docs, s.vaults, r in direct, Some(e.id) == Some(r));
    }
    hide VaultsOk, DocsOk, FlagsOk, AccessOk, Justified;
    GrantSound(s, direct + {e.id}, e.id);
  }

  lemma ApproveBlsSound(s: Store, direct: set<nat>, e: Event, now: Time)
    requires Sound(s, direct, None) && e.ApproveBls? && Step(s, e, now).Done?
    ensures Sound(Step(s, e, now).state, direct, None)
  {
    hide Sound, EndorseAll;
    OpensPending(s, direct, e.id, now);
    EndorseAllSound(s, direct, e.id, e.guardians, |e.guardians|);
    ConcludeSound(EndorseAll(s, e.id, e.guardians, |e.guardians|).state, direct, e.id);
  }

  lemma OpensPending(s: Store, direct: set<nat>, id: nat, now: Time)
    requires Sound(s, direct, None) && Approvable(s, id, now)
    ensures Sound(s, direct, Some(id))
  {
    Opens(s, direct, id);
  }

  lemma AccessCleared(hasAccess: map<(nat, Address), bool>, level: map<(nat, Address), Level>, docs: map<nat, Document>,
    requests: map<nat, Request>, key: (nat, Address))
    requires AccessOk(hasAccess, level, docs) && Justified(level, docs, requests)
    ensures AccessOk(hasAccess[key := false], level - {key}, docs) && Justified(level - {key}, docs, requests)
  {
    hide HasApproval;
  }

  lemma RevokeSound(s: Store, direct: set<nat>, documentId: nat, target: Address)
    requires Sound(s, direct, None) && Revoke(s, documentId, target).Done?
    ensures Sound(Revoke(s, documentId, target).state, direct, None)
  {
    AccessCleared(s.hasAccess, s.level, s.docs, s.requests, (documentId, target));
    hide VaultsOk, DocsOk, RequestsOk, FlagsOk, AccessOk, Justified;
  }

  // Every entry point keeps the invariants; only a threshold signature adds a request decided without a quorum.
  lemma StepSound(s: Store, direct: set<nat>, e: Event, now: Time)
    requires Sound(s, direct, None)
    ensures Sound(After(s, Step(s, e, now)), if e.ApproveThreshold? && Step(s, e, now).Done? then direct + {e.id} else direct, None)
  {
    if Step(s, e, now).Done? {
      hide Sound, CreateVaultStep, AcceptInviteStep, DeactivateStep, AddDocumentStep, RequestAccessStep, ApproveStep,
           ApproveThresholdStep, ApproveBlsStep, ApproveFheStep, Revoke;
      match e
      case CreateVault(_, _, _) => CreateVaultSound(s, direct, e, now);
      case AcceptInvite(_, _) => AcceptInviteSound(s, direct, e, now);
      case Deactivate(_, _) => DeactivateSound(s, direct, e, now);
      case RegisterBlsKey(_, _, _) => RegisterBlsKeySound(s, direct, e, now);
      case AddDocument(_, _, _, _) => AddDocumentSound(s, direct, e, now);
      case RequestAccess(_, _, _) => RequestAccessSound(s, direct, e, now);
      case Approve(_, _) => ApproveSound(s, direct, e, now);
      case ApproveThreshold(_, _) => ApproveThresholdSound(s, direct, e, now);
      case ApproveBls(_, _, _) => ApproveBlsSound(s, direct, e, now);
      case ApproveFhe(_, _, _) => ApproveSound(s, direct, e, now);
      case RevokeAccess(_, d, u) => RevokeSound(s, direct, d, u);
      case RelayRevoke(_, d, u, _) => RevokeSound(s, direct, d, u);
    }
  }

  lemma RegisterBlsKeySound(s: Store, direct: set<nat>, e: Event, now: Time)
    requires Sound(s, direct, None) && e.RegisterBlsKey? && Step(s, e, now).Done?
    ensures Sound(Step(s, e, now).state, direct, None)
  {
    hide VaultsOk, DocsOk, RequestsOk, FlagsOk, AccessOk, Justified;
  }

  // ----- encrypted shares -----

  // For each request, the shares that approve_access_fhe took, in order; for statements only.
  datatype History = History(direct: set<nat>, shares: map<nat, seq<seq<nat>>>)

  function SharesOf(h: History, id: nat): seq<seq<nat>> {
    if id in h.shares then h.shares[id] else []
  }

  // The stored bytes and count are what adding up all the shares gives.
  ghost predicate AccumulatesAt(s: Store, h: History, id: nat) {
    FheOnChain.AccumulateAll(SharesOf(h, id), |SharesOf(h, id)|) == Some(AccumulatorOf(s, id))
  }

  ghost predicate Accumulates(s: Store, h: History) {
    forall id: nat :: AccumulatesAt(s, h, id)
  }

  function Remember(h: History, s: Store, e: Event, now: Time): History {
    if Step(s, e, now).Reverted? then h
    else if e.ApproveThreshold? then h.(direct := h.direct + {e.id})
    else if e.ApproveFhe? then h.(shares := h.shares[e.id := SharesOf(h, e.id) + [e.share]])
    else h
  }

  lemma {:induction false} AccumulatePrefix(shares: seq<seq<nat>>, share: seq<nat>, n: nat)
    requires n <= |shares|
    ensures FheOnChain.AccumulateAll(shares + [share], n) == FheOnChain.AccumulateAll(shares, n)
  {
    hide FheOnChain.Accumulate;
    if n > 0 {
      AccumulatePrefix(shares, share, n - 1);
    }
  }

  lemma AccumulateSnoc(shares: seq<seq<nat>>, share: seq<nat>, acc: FheOnChain.Accumulator)
    requires FheOnChain.AccumulateAll(shares, |shares|) == Some(acc)
    ensures FheOnChain.AccumulateAll(shares + [share], |shares| + 1) == FheOnChain.Accumulate(acc, share)
  {
    AccumulatePrefix(shares, share, |shares|);
    hide FheOnChain.Accumulate;
  }

  lemma SubmitAccumulates(s: Store, id: nat, approver: Address, share: seq<nat>, other: nat)
    requires Submit(s, id, approver, share).Done?
    ensures var t := Submit(s, id, approver, share).state;
            && (other != id ==> AccumulatorOf(t, other) == AccumulatorOf(s, other))
            && FheOnChain.Accumulate(AccumulatorOf(s, id), share) == Some(AccumulatorOf(t, id))
  {
    if share != [] {
      hide FheOnChain.Accumulate;
    }
  }

  lemma ConcludeLeavesAccumulators(s: Store, id: nat, threshold: nat, other: nat)
    requires id in s.requests && s.requests[id].documentId in s.docs
    ensures AccumulatorOf(Conclude(s, id, threshold), other) == AccumulatorOf(s, other)
  {}

  lemma ApproveFheAccumulates(s: Store, h: History, e: Event, now: Time, id: nat)
    requires Accumulates(s, h) && e.ApproveFhe? && Step(s, e, now).Done?
    ensures AccumulatesAt(Step(s, e, now).state, Remember(h, s, e, now), id)
  {
    hide FheOnChain.Accumulate, FheOnChain.AccumulateAll, Submit;
    var endorsed := Endorse(s, e.id, e.approver);
    assert AccumulatesAt(s, h, id) && AccumulatesAt(s, h, e.id);
    SubmitAccumulates(endorsed, e.id, e.approver, e.share, id);
    SubmitLeavesRequests(endorsed, e.id, e.approver, e.share);
    ConcludeLeavesAccumulators(Submit(endorsed, e.id, e.approver, e.share).state, e.id, VaultOf(s, e.id).approvalThreshold, id);
    AccumulateSnoc(SharesOf(h, e.id), e.share, AccumulatorOf(s, e.id));
  }

  lemma SubmitLeavesRequests(s: Store, id: nat, approver: Address, share: seq<nat>)
    requires Submit(s, id, approver, share).Done?
    ensures Submit(s, id, approver, share).state.requests == s.requests && Submit(s, id, approver, share).state.docs == s.docs
  {
    hide FheOnChain.Accumulate;
  }

  lemma BlsLeavesAccumulators(s: Store, e: Event, now: Time)
    requires e.ApproveBls? && Step(s, e, now).Done?
    ensures Step(s, e, now).state.accumulators == s.accumulators && Step(s, e, now).state.accumulated == s.accumulated
  {
    hide EndorseAll;
    EndorseAllLeaves(s, e.id, e.guardians, |e.guardians|);
  }

  lemma OthersLeaveAccumulators(s: Store, e: Event, now: Time)
    requires !e.ApproveFhe? && Step(s, e, now).Done?
    ensures Step(s, e, now).state.accumulators == s.accumulators && Step(s, e, now).state.accumulated == s.accumulated
  {
    hide AddInvites, OpenInvite, External, Distinct, EndorseAll, ApproveFheStep, ApproveBlsStep;
    hide HasAccess, ActiveGuardian, ActiveDocument, Approvable, VaultOf, VaultIdOf, Revoke;
    match e
    case ApproveBls(_, _, _) => BlsLeavesAccumulators(s, e, now);
    case RevokeAccess(_, d, u) => RevokeLeavesAccumulators(s, d, u);
    case RelayRevoke(_, d, u, _) => RevokeLeavesAccumulators(s, d, u);
    case _ =>
  }

  lemma RevokeLeavesAccumulators(s: Store, documentId: nat, target: Address)
    ensures var o := Revoke(s, documentId, target);
            o.Done? ==> o.state.accumulators == s.accumulators && o.state.accumulated == s.accumulated
  {}

  lemma {:induction false} EndorseAllLeaves(s: Store, id: nat, guardians: seq<Address>, n: nat)
    requires n <= |guardians| && id in s.requests && ActiveDocument(s, s.requests[id].documentId)
    ensures var r := EndorseAll(s, id, guardians, n);
            r.Done? ==> r.state.accumulators == s.accumulators && r.state.accumulated == s.accumulated
  {
    if n > 0 {
      EndorseAllLeaves(s, id, guardians, n - 1);
    }
  }

  lemma StepAccumulates(s: Store, h: History, e: Event, now: Time)
    requires Accumulates(s, h)
    ensures Accumulates(After(s, Step(s, e, now)), Remember(h, s, e, now))
  {
    hide Step, AccumulatesAt;
    if Step(s, e, now).Done? {
      forall id: nat ensures AccumulatesAt(Step(s, e, now).state, Remember(h, s, e, now), id) {
        if e.ApproveFhe? {
          ApproveFheAccumulates(s, h, e, now, id);
        } else {
          OthersLeaveAccumulators(s, e, now);
          SameAccumulator(s, Step(s, e, now).state, h, Remember(h, s, e, now), id);
        }
      }
    }
  }

  lemma SameAccumulator(s: Store, t: Store, h: History, k: History, id: nat)
    requires AccumulatesAt(s, h, id) && k.shares == h.shares
    requires t.accumulators == s.accumulators && t.accumulated == s.accumulated
    ensures AccumulatesAt(t, k, id)
  {
    hide FheOnChain.AccumulateAll;
  }

  // ----- what is decided stays decided -----

  ghost predicate Grows(q: Request, p: Request) {
    && p.documentId == q.documentId && p.requester == q.requester && p.expiresAt == q.expiresAt
    && q.approvedBy <= p.approvedBy && (q.status.Approved? ==> p == q)
  }

  ghost predicate RequestsGrow(s: Store, t: Store) {
    forall r :: r in s.requests ==> r in t.requests && Grows(s.requests[r], t.requests[r])
  }

  lemma {:induction false} EndorseAllGrows(s: Store, id: nat, guardians: seq<Address>, n: nat)
    requires n <= |guardians| && id in s.requests && ActiveDocument(s, s.requests[id].documentId)
    requires s.requests[id].status.Pending?
    ensures var r := EndorseAll(s, id, guardians, n);
            r.Done? ==> r.state.requests[id].status.Pending? && RequestsGrow(s, r.state)
  {
    if n > 0 {
      EndorseAllGrows(s, id, guardians, n - 1);
    }
  }

  lemma ConcludeGrows(s: Store, t: Store, id: nat, threshold: nat)
    requires RequestsGrow(s, t) && id in s.requests && id in t.requests && t.requests[id].documentId in t.docs
    requires s.requests[id].status.Pending?
    ensures RequestsGrow(s, Conclude(t, id, threshold))
  {}

  lemma ApprovalGrows(s: Store, e: Event, now: Time)
    requires (e.Approve? || e.ApproveFhe? || e.ApproveBls? || e.ApproveThreshold?) && Step(s, e, now).Done?
    ensures RequestsGrow(s, Step(s, e, now).state)
  {
    hide EndorseAll, Conclude, Submit;
    match e
    case Approve(a, id) =>
      ConcludeGrows(s, Endorse(s, id, a), id, VaultOf(s, id).approvalThreshold);
    case ApproveFhe(a, id, share) =>
      SubmitLeavesRequests(Endorse(s, id, a), id, a, share);
      ConcludeGrows(s, Submit(Endorse(s, id, a), id, a, share).state, id, VaultOf(s, id).approvalThreshold);
    case ApproveBls(id, guardians, _) =>
      EndorseAllGrows(s, id, guardians, |guardians|);
      ConcludeGrows(s, EndorseAll(s, id, guardians, |guardians|).state, id, VaultOf(s, id).approvalThreshold);
    case ApproveThreshold(id, _) =>
  }

  lemma OthersGrow(s: Store, direct: set<nat>, e: Event, now: Time)
    requires RequestsOk(s.requests, s.reqCount, s.docs, s.vaults, direct, None)
    requires !(e.Approve? || e.ApproveFhe? || e.ApproveBls? || e.ApproveThreshold?) && Step(s, e, now).Done?
    ensures RequestsGrow(s, Step(s, e, now).state)
  {
    hide RequestOk, AddInvites, OpenInvite, External, Distinct, ActiveDocument, HasAccess, ActiveGuardian;
    hide ApproveStep, ApproveThresholdStep, ApproveBlsStep, ApproveFheStep;
    assert s.reqCount + 1 !in s.requests;
    assert !e.RequestAccess? ==> Step(s, e, now).state.requests == s.requests;
  }

  // No call takes back an approval, changes a decided request, or removes one.
  lemma StepGrows(s: Store, direct: set<nat>, e: Event, now: Time)
    requires Sound(s, direct, None)
    ensures RequestsGrow(s, After(s, Step(s, e, now)))
  {
    if Step(s, e, now).Done? {
      if e.Approve? || e.ApproveFhe? || e.ApproveBls? || e.ApproveThreshold? {
        ApprovalGrows(s, e, now);
      } else {
        hide Step;
        OthersGrow(s, direct, e, now);
      }
    }
  }

  // ----- runs -----

  datatype World = World(store: Store, history: History)

  datatype Call = Call(event: Event, now: Time)

  // The first n calls, each at its ledger time.
  function Run(events: seq<Call>, n: nat): World
    requires n <= |events|
  {
    if n == 0 then World(EMPTY, History({}, map[])) else
      var w, c := Run(events, n - 1), events[n - 1];
      World(After(w.store, Step(w.store, c.event, c.now)), Remember(w.history, w.store, c.event, c.now))
  }

  lemma EmptySound()
    ensures Sound(EMPTY, {}, None) && Accumulates(EMPTY, History({}, map[]))
  {
    assert forall id: nat :: AccumulatesAt(EMPTY, History({}, map[]), id);
  }

  lemma DirectRemembered(h: History, s: Store, e: Event, now: Time)
    ensures Remember(h, s, e, now).direct == if e.ApproveThreshold? && Step(s, e, now).Done? then h.direct + {e.id} else h.direct
  {
    hide Step;
  }

  // In every reachable state: vault guardians are distinct, approvals are flags of distinct guardians, pending
  // requests are below the threshold, levels match grants, and accumulators hold the sum of their shares.
  lemma {:induction false} RunSound(events: seq<Call>, n: nat)
    requires n <= |events|
    ensures var w := Run(events, n);
            Sound(w.store, w.history.direct, None) && Accumulates(w.store, w.history)
  {
    hide Sound, Accumulates, Step, Remember;
    if n == 0 {
      EmptySound();
    } else {
      RunSound(events, n - 1);
      var w, c := Run(events, n - 1), events[n - 1];
      StepSound(w.store, w.history.direct, c.event, c.now);
      DirectRemembered(w.history, w.store, c.event, c.now);
      StepAccumulates(w.store, w.history, c.event, c.now);
    }
  }

  lemma GrowsOn(s: Store, t: Store, u: Store)
    requires RequestsGrow(s, t) && RequestsGrow(t, u)
    ensures RequestsGrow(s, u)
  {}

  // What is decided stays decided over a whole run: between any two moments no request disappears, loses an
  // approval or, once approved, changes at all.
  lemma {:induction false} RunGrows(events: seq<Call>, m: nat, n: nat)
    requires m <= n <= |events|
    ensures RequestsGrow(Run(events, m).store, Run(events, n).store)
    decreases n
  {
    if m < n {
      RunGrows(events, m, n - 1);
      RunSound(events, n - 1);
      var w, c := Run(events, n - 1), events[n - 1];
      hide RequestsGrow, Sound, Step;
      StepGrows(w.store, w.history.direct, c.event, c.now);
      GrowsOn(Run(events, m).store, w.store, Run(events, n).store);
    }
  }

  ghost predicate Quorum(s: Store, q: Request) {
    && q.documentId in s.docs && s.docs[q.documentId].vaultId in s.vaults
    && var v := s.vaults[s.docs[q.documentId].vaultId];
       Distinct(q.approvedBy) && |q.approvedBy| >= v.approvalThreshold >= 1 && forall a :: a in q.approvedBy ==> a in v.guardians
  }

  ghost predicate HasQuorum(s: Store, direct: set<nat>, documentId: nat, user: Address, r: nat) {
    r in s.requests && IsApproval(s.requests[r], documentId, user) && (r in direct || Quorum(s, s.requests[r]))
  }

  lemma SoundAccess(s: Store, direct: set<nat>, documentId: nat, user: Address)
    requires Sound(s, direct, None) && HasAccess(s, documentId, user)
    ensures documentId in s.docs
    ensures s.docs[documentId].uploadedBy == user || exists r :: HasQuorum(s, direct, documentId, user, r)
  {
    assert (documentId, user) in s.level;
    if s.docs[documentId].uploadedBy != user {
      assert HasApproval(s.requests, documentId, user);
      var r :| r in s.requests && IsApproval(s.requests[r], documentId, user);
      assert RequestOk(s.requests[r], s.docs, s.vaults, r in direct, false);
      assert s.vaults[s.docs[s.requests[r].documentId].vaultId].approvalThreshold >= 1;
      assert HasQuorum(s, direct, documentId, user, r);
    }
  }

  // Whoever has access uploaded the document, or a request of theirs for it was approved by at least the
  // threshold of distinct guardians of its vault, or by a threshold signature. The last way bounds nothing
  // about guardians: its keys are distinct and its signatures valid, but the keys are not tied to the vault.
  lemma AccessNeedsQuorum(events: seq<Call>, documentId: nat, user: Address)
    requires HasAccess(Run(events, |events|).store, documentId, user)
    ensures var w := Run(events, |events|);
            && documentId in w.store.docs
            && (w.store.docs[documentId].uploadedBy == user
                || exists r :: HasQuorum(w.store, w.history.direct, documentId, user, r))
  {
    hide Run;
    RunSound(events, |events|);
    hide Sound, HasAccess, HasQuorum;
    SoundAccess(Run(events, |events|).store, Run(events, |events|).history.direct, documentId, user);
  }

  // The on-chain accumulator of a request decrypts to the sum of the plaintexts submitted for it, and its
  // counter is the number of non-empty shares.
  lemma AccumulatorDecrypts(events: seq<Call>, id: nat, cts: seq<Option<Fhe.Ciphertext>>, key: seq<nat>)
    requires var shares := SharesOf(Run(events, |events|).history, id);
             FheOnChain.Submitted(shares, cts, |key|)
    ensures FheOnChain.AccumulatorHolds(AccumulatorOf(Run(events, |events|).store, id),
                                        FheOnChain.CountOf(cts, |cts|), FheOnChain.PlainSum(cts, |cts|, key), key)
  {
    hide Run, FheOnChain.AccumulatorHolds, FheOnChain.Submitted, FheOnChain.CountOf, FheOnChain.PlainSum;
    RunSound(events, |events|);
    var w := Run(events, |events|);
    hide Sound;
    assert AccumulatesAt(w.store, w.history, id);
    FheOnChain.AccumulatorDecryptsToSum(SharesOf(w.history, id), cts, |cts|, key);
    SubmittedLengths(SharesOf(w.history, id), cts, |key|);
  }

  lemma SubmittedLengths(shares: seq<seq<nat>>, cts: seq<Option<Fhe.Ciphertext>>, dim: nat)
    requires FheOnChain.Submitted(shares, cts, dim)
    ensures |shares| == |cts|
  {}
}

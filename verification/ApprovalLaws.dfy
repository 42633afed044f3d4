/** What each entry point on vaults, requests and access in contracts-stellar/src/lib.rs does to what callers can
    observe, and when it completes. */
module ApprovalLaws {
  import opened Text
  import opened Ledger
  import opened Approvals
  import opened ApprovalRuns
  import FheOnChain

  // ----- observations -----

  function VersionOf(s: Store, vaultId: nat, user: Address): nat {
    if (vaultId, user) in s.version then s.version[(vaultId, user)] else 1
  }

  // Access, levels and versions of everyone else and everything else are as before.
  ghost predicate OnlyAccessOf(s: Store, t: Store, documentId: nat, user: Address) {
    forall d: nat, u :: (d, u) != (documentId, user) ==>
      && (HasAccess(t, d, u) <==> HasAccess(s, d, u))
      && ((d, u) in t.level <==> (d, u) in s.level)
      && ((d, u) in s.level ==> t.level[(d, u)] == s.level[(d, u)])
  }

  ghost predicate SameAccess(s: Store, t: Store) {
    t.hasAccess == s.hasAccess && t.level == s.level && t.version == s.version
  }

  ghost predicate SameRequests(s: Store, t: Store) {
    t.requests == s.requests && t.reqCount == s.reqCount && t.approved == s.approved
  }

  ghost predicate SameVaults(s: Store, t: Store) {
    t.vaults == s.vaults && t.vaultCount == s.vaultCount && t.invites == s.invites && t.blsKeys == s.blsKeys
  }

  ghost predicate SameDocuments(s: Store, t: Store) {
    t.docs == s.docs && t.docCount == s.docCount
  }

  // ----- revocation -----

  // A completed revocation takes the access and the level away and moves the access version on by one; nothing
  // else moves.
  ghost predicate Revoked(s: Store, t: Store, documentId: nat, user: Address)
    requires documentId in s.docs
  {
    var v := s.docs[documentId].vaultId;
    && !HasAccess(t, documentId, user) && (documentId, user) !in t.level
    && OnlyAccessOf(s, t, documentId, user)
    && VersionOf(t, v, user) == VersionOf(s, v, user) + 1
    && (forall w: nat, u :: (w, u) != (v, user) ==> VersionOf(t, w, u) == VersionOf(s, w, u))
    && SameRequests(s, t) && SameVaults(s, t) && SameDocuments(s, t)
  }

  // Any guardian of the document's vault may revoke, whether or not the vault is active and the user had access.
  lemma RevokeLaw(s: Store, guardian: Address, documentId: nat, user: Address, now: Time)
    ensures var o := Step(s, RevokeAccess(guardian, documentId, user), now);
            && (o.Done? <==> documentId in s.docs && s.docs[documentId].vaultId in s.vaults
                             && guardian in s.vaults[s.docs[documentId].vaultId].guardians
                             && VersionOf(s, s.docs[documentId].vaultId, user) != U64_MAX)
            && (o.Done? ==> Revoked(s, o.state, documentId, user))
  {}

  // So may a fresh broadcast of the linked revoker.
  lemma RelayRevokeLaw(s: Store, linkedVault: nat, documentId: nat, user: Address, authentic: bool, now: Time)
    ensures var o := Step(s, RelayRevoke(linkedVault, documentId, user, authentic), now);
            && (o.Done? <==> authentic && documentId in s.docs && s.docs[documentId].vaultId == linkedVault
                             && VersionOf(s, linkedVault, user) != U64_MAX)
            && (o.Done? ==> Revoked(s, o.state, documentId, user))
  {}

  // ----- vaults -----

  lemma {:induction false} ExternalCount(guardians: seq<Address>, creator: Address, n: nat)
    requires n <= |guardians| && Distinct(guardians)
    ensures External(guardians, creator, n) == n - if creator in guardians[..n] then 1 else 0
  {
    if n > 0 {
      ExternalCount(guardians, creator, n - 1);
      assert guardians[..n] == guardians[..n - 1] + [guardians[n - 1]];
    }
  }

  // Everyone listed but the creator gets the invitation, after those they already have; nobody else does.
  lemma {:induction false} InvitesAdded(invites: map<Address, seq<Invite>>, guardians: seq<Address>, creator: Address,
    invite: Invite, n: nat, a: Address)
    requires n <= |guardians| && Distinct(guardians)
    ensures InvitesOf(AddInvites(invites, guardians, creator, invite, n), a)
         == InvitesOf(invites, a) + if a in guardians[..n] && a != creator then [invite] else []
  {
    if n > 0 {
      InvitesAdded(invites, guardians, creator, invite, n - 1, a);
      assert guardians[..n] == guardians[..n - 1] + [guardians[n - 1]];
      var before := AddInvites(invites, guardians, creator, invite, n - 1);
      assert InvitesOf(before, a) + [] == InvitesOf(before, a);
      if a == guardians[n - 1] { assert a !in guardians[..n - 1]; }
    }
  }

  ghost predicate Invited(before: map<Address, seq<Invite>>, after: map<Address, seq<Invite>>, guardians: seq<Address>,
                          creator: Address, invite: Invite) {
    forall a :: InvitesOf(after, a) == InvitesOf(before, a) + if a in guardians && a != creator then [invite] else []
  }

  lemma AllInvited(invites: map<Address, seq<Invite>>, guardians: seq<Address>, creator: Address, invite: Invite)
    requires Distinct(guardians)
    ensures Invited(invites, AddInvites(invites, guardians, creator, invite, |guardians|), guardians, creator, invite)
  {
    assert guardians[..|guardians|] == guardians;
    forall a ensures InvitesOf(AddInvites(invites, guardians, creator, invite, |guardians|), a)
                  == InvitesOf(invites, a) + if a in guardians && a != creator then [invite] else []
    {
      InvitesAdded(invites, guardians, creator, invite, |guardians|, a);
    }
  }

  // A vault needs distinct guardians, one of them besides the creator, and a threshold they can reach together.
  lemma CreateVaultWhen(s: Store, creator: Address, guardians: seq<Address>, threshold: nat, now: Time)
    ensures var external := |guardians| - if creator in guardians then 1 else 0;
            Step(s, CreateVault(creator, guardians, threshold), now).Done?
            <==> Distinct(guardians) && external >= 1 && 1 <= threshold <= external + 1
                 && s.vaultCount != U64_MAX && now.timestamp + INVITE_PERIOD <= U64_MAX
  {
    assert guardians[..|guardians|] == guardians;
    if Distinct(guardians) {
      ExternalCount(guardians, creator, |guardians|);
    }
    hide AddInvites, External, Distinct;
  }

  // It starts with the creator alone; the others are invited for a week.
  lemma CreateVaultLaw(s: Store, creator: Address, guardians: seq<Address>, threshold: nat, now: Time)
    requires Step(s, CreateVault(creator, guardians, threshold), now).Done?
    ensures var t := Step(s, CreateVault(creator, guardians, threshold), now).state;
            var invite := Invite(t.vaultCount, false, now.timestamp + INVITE_PERIOD);
            && t.vaultCount == s.vaultCount + 1
            && t.vaults == s.vaults[t.vaultCount := Vault(creator, [creator], threshold, true)]
            && Invited(s.invites, t.invites, guardians, creator, invite)
            && t.blsKeys == s.blsKeys && SameRequests(s, t) && SameDocuments(s, t) && SameAccess(s, t)
  {
    AllInvited(s.invites, guardians, creator, Invite(s.vaultCount + 1, false, now.timestamp + INVITE_PERIOD));
    hide AddInvites, Invited, External, Distinct;
  }

  predicate OpenFor(invite: Invite, vaultId: nat) {
    invite.vaultId == vaultId && !invite.accepted
  }

  // Position i holds the first open invitation to the vault.
  ghost predicate IsFirstOpen(invites: seq<Invite>, vaultId: nat, i: nat) {
    i < |invites| && OpenFor(invites[i], vaultId) && forall j :: 0 <= j < i ==> !OpenFor(invites[j], vaultId)
  }

  lemma {:induction false} OpenInviteFinds(invites: seq<Invite>, vaultId: nat, from: nat)
    requires from <= |invites| && forall j :: 0 <= j < from ==> !OpenFor(invites[j], vaultId)
    ensures var i := OpenInvite(invites, vaultId, from);
            if i.Some? then IsFirstOpen(invites, vaultId, i.value)
            else forall j :: 0 <= j < |invites| ==> !OpenFor(invites[j], vaultId)
    decreases |invites| - from
  {
    if from < |invites| && !OpenFor(invites[from], vaultId) {
      OpenInviteFinds(invites, vaultId, from + 1);
    }
  }

  // The first open invitation decides: it must not have expired. It is used up, and the invited joins the vault.
  lemma AcceptInviteLaw(s: Store, guardian: Address, vaultId: nat, now: Time)
    ensures var o := Step(s, AcceptInvite(guardian, vaultId), now);
            && (o.Done? <==> vaultId in s.vaults && s.vaults[vaultId].isActive && guardian !in s.vaults[vaultId].guardians
                             && exists i: nat :: IsFirstOpen(InvitesOf(s.invites, guardian), vaultId, i)
                                            && now.timestamp < InvitesOf(s.invites, guardian)[i].expiresAt)
            && (o.Done? ==> exists i: nat ::
                  var mine, vault := InvitesOf(s.invites, guardian), s.vaults[vaultId];
                  && IsFirstOpen(mine, vaultId, i)
                  && o.state == s.(invites := s.invites[guardian := mine[i := mine[i].(accepted := true)]],
                                   vaults := s.vaults[vaultId := vault.(guardians := vault.guardians + [guardian])]))
  {
    var mine := InvitesOf(s.invites, guardian);
    OpenInviteFinds(mine, vaultId, 0);
    var first := OpenInvite(mine, vaultId);
    if i: nat :| IsFirstOpen(mine, vaultId, i) && now.timestamp < mine[i].expiresAt {
      SameFirst(mine, vaultId, i, first.value);
    }
    if Step(s, AcceptInvite(guardian, vaultId), now).Done? {
      assert IsFirstOpen(mine, vaultId, first.value);
    }
  }

  lemma SameFirst(invites: seq<Invite>, vaultId: nat, i: nat, j: nat)
    requires IsFirstOpen(invites, vaultId, i) && IsFirstOpen(invites, vaultId, j)
    ensures i == j
  {}

  // Only the creator deactivates a vault, once; nothing else moves.
  lemma DeactivateLaw(s: Store, owner: Address, vaultId: nat, now: Time)
    ensures var o := Step(s, Deactivate(owner, vaultId), now);
            && (o.Done? <==> vaultId in s.vaults && s.vaults[vaultId].creator == owner && s.vaults[vaultId].isActive)
            && (o.Done? ==> var t := o.state;
                            && t == s.(vaults := t.vaults) && t.vaults.Keys == s.vaults.Keys && !t.vaults[vaultId].isActive
                            && t.vaults[vaultId].guardians == s.vaults[vaultId].guardians
                            && forall v :: v in s.vaults && v != vaultId ==> t.vaults[v] == s.vaults[v])
  {}

  // A key is registered by its guardian, with a proof of possession; nothing else moves.
  lemma RegisterBlsKeyLaw(s: Store, guardian: Address, vaultId: nat, possessed: bool, now: Time)
    ensures var o := Step(s, RegisterBlsKey(guardian, vaultId, possessed), now);
            && (o.Done? <==> ActiveGuardian(s, vaultId, guardian) && possessed)
            && (o.Done? ==> var t := o.state;
                            && t == s.(blsKeys := t.blsKeys) && (vaultId, guardian) in t.blsKeys
                            && forall v: nat, g :: (v, g) != (vaultId, guardian) ==> ((v, g) in t.blsKeys <==> (v, g) in s.blsKeys))
  {}

  // ----- documents and requests -----

  // A guardian of an active vault adds a document, and is the only one with access to it.
  lemma AddDocumentLaw(s: Store, direct: set<nat>, uploader: Address, vaultId: nat, level: Level, wellFormed: bool, now: Time)
    requires Sound(s, direct, None)
    ensures var o := Step(s, AddDocument(uploader, vaultId, level, wellFormed), now);
            && (o.Done? <==> ActiveGuardian(s, vaultId, uploader) && wellFormed && s.docCount != U64_MAX)
            && (o.Done? ==> var t := o.state; var d := t.docCount;
                            && d == s.docCount + 1 && d !in s.docs && t.docs == s.docs[d := Document(vaultId, uploader, level)]
                            && (forall u :: HasAccess(t, d, u) ==> u == uploader || HasAccess(s, d, u))
                            && HasAccess(t, d, uploader) && (d, uploader) in t.level && t.level[(d, uploader)] == level
                            && OnlyAccessOf(s, t, d, uploader) && t.version == s.version
                            && SameRequests(s, t) && SameVaults(s, t))
  {
    hide RequestsOk, FlagsOk, AccessOk, Justified, VaultsOk;
    assert s.docCount + 1 !in s.docs;
  }

  // Anyone without access may ask, while the vault is active and the document is released; the request is new,
  // pending, without approvals, and stands for three days.
  lemma RequestAccessLaw(s: Store, requester: Address, documentId: nat, released: Outcome<bool>, now: Time)
    ensures var o := Step(s, RequestAccess(requester, documentId, released), now);
            && (o.Done? <==> ActiveDocument(s, documentId) && !HasAccess(s, documentId, requester) && released == Done(true)
                             && s.reqCount != U64_MAX && now.timestamp + REQUEST_PERIOD <= U64_MAX)
            && (o.Done? ==> var t := o.state;
                            && t.reqCount == s.reqCount + 1
                            && t.requests == s.requests[t.reqCount :=
                                 Request(documentId, requester, [], Pending, now.timestamp + REQUEST_PERIOD)]
                            && t.approved == s.approved && SameAccess(s, t) && SameVaults(s, t) && SameDocuments(s, t))
  {}

  // ----- approvals -----

  // Request id, pending before, now has these approvals; with the threshold reached it is approved and its
  // requester has access at the document's level, and below it everything else is as before.
  ghost predicate Settled(s: Store, t: Store, id: nat, approvedBy: seq<Address>)
    requires id in s.requests && ActiveDocument(s, s.requests[id].documentId)
  {
    var q, threshold := s.requests[id], VaultOf(s, id).approvalThreshold;
    var reached := |approvedBy| >= threshold;
    && t.requests == s.requests[id := q.(approvedBy := approvedBy, status := if reached then Approved else Pending)]
    && (if reached then Granted(s, t, q) else t.hasAccess == s.hasAccess && t.level == s.level)
    && t.version == s.version && t.reqCount == s.reqCount && SameVaults(s, t) && SameDocuments(s, t)
  }

  // The request's user has access at the document's level; nobody else's access moves.
  ghost predicate Granted(s: Store, t: Store, q: Request)
    requires q.documentId in s.docs
  {
    var key := (q.documentId, q.requester);
    && HasAccess(t, q.documentId, q.requester) && key in t.level && t.level[key] == s.docs[q.documentId].requiredAccess
    && OnlyAccessOf(s, t, q.documentId, q.requester)
  }

  // Pending, not expired, on a document of an active vault.
  ghost predicate MayBeDecided(s: Store, id: nat, now: Time) {
    && id in s.requests && s.requests[id].status == Pending && now.timestamp < s.requests[id].expiresAt
    && ActiveDocument(s, s.requests[id].documentId)
  }

  lemma ConcludeLaw(s: Store, e: Store, id: nat, approvedBy: seq<Address>)
    requires id in s.requests && ActiveDocument(s, s.requests[id].documentId) && s.requests[id].status == Pending
    requires e.requests == s.requests[id := s.requests[id].(approvedBy := approvedBy)]
    requires e == s.(requests := e.requests, approved := e.approved, fheShares := e.fheShares,
                     accumulators := e.accumulators, accumulated := e.accumulated)
    ensures var t := Conclude(e, id, VaultOf(s, id).approvalThreshold);
            Settled(s, t, id, approvedBy) && t.approved == e.approved
  {}

  // A guardian approves once; the requester, if a guardian, may be among them.
  lemma ApproveLaw(s: Store, approver: Address, id: nat, now: Time)
    ensures var o := Step(s, Approve(approver, id), now);
            && (o.Done? <==> MayBeDecided(s, id, now) && approver in VaultOf(s, id).guardians && (id, approver) !in s.approved)
            && (o.Done? ==> Settled(s, o.state, id, s.requests[id].approvedBy + [approver])
                            && o.state.approved == s.approved + {(id, approver)})
  {}

  // A share is empty, or fits the request's accumulator.
  predicate ShareFits(s: Store, id: nat, share: seq<nat>) {
    share == [] ||
    var acc := FheOnChain.Accumulate(AccumulatorOf(s, id), share);
    acc.Some? && acc.value.count <= U32_MAX
  }

  // The same with an encrypted share, which must not come from the requester.
  lemma ApproveFheLaw(s: Store, approver: Address, id: nat, share: seq<nat>, now: Time)
    ensures var o := Step(s, ApproveFhe(approver, id, share), now);
            && (o.Done? <==> MayBeDecided(s, id, now) && approver in VaultOf(s, id).guardians && (id, approver) !in s.approved
                             && s.requests[id].requester != approver && ShareFits(s, id, share))
            && (o.Done? ==> Settled(s, o.state, id, s.requests[id].approvedBy + [approver])
                            && o.state.approved == s.approved + {(id, approver)})
  {
    if Approvable(s, id, now) {
      var e := Endorse(s, id, approver);
      SubmitFits(s, approver, id, share);
      if Submit(e, id, approver, share).Done? {
        SubmitFrame(e, id, approver, share);
        var f := Submit(e, id, approver, share).state;
        hide Submit, Settled, Conclude;
        ConcludeLaw(s, f, id, s.requests[id].approvedBy + [approver]);
      }
    }
    hide Submit, Settled, Conclude, ShareFits;
  }

  lemma SubmitFits(s: Store, approver: Address, id: nat, share: seq<nat>)
    requires id in s.requests
    ensures Submit(Endorse(s, id, approver), id, approver, share).Done? <==> ShareFits(s, id, share)
  {
    var e := Endorse(s, id, approver);
    assert AccumulatorOf(e, id) == AccumulatorOf(s, id);
    hide FheOnChain.Accumulate;
  }

  // A verified threshold signature decides at once, whatever the approvals so far.
  lemma ApproveThresholdLaw(s: Store, id: nat, verified: bool, now: Time)
    ensures var o := Step(s, ApproveThreshold(id, verified), now);
            && (o.Done? <==> MayBeDecided(s, id, now) && verified)
            && (o.Done? ==> var q := s.requests[id];
                            && o.state.requests == s.requests[id := q.(status := Approved)]
                            && Granted(s, o.state, q)
                            && o.state.version == s.version && o.state.approved == s.approved
                            && SameVaults(s, o.state) && SameDocuments(s, o.state))
  {}

  // The listed guardians not yet on record, each once, in order.
  function Newcomers(approved: set<(nat, Address)>, id: nat, guardians: seq<Address>, n: nat): (r: seq<Address>)
    requires n <= |guardians|
  {
    if n == 0 then [] else
      var before, g := Newcomers(approved, id, guardians, n - 1), guardians[n - 1];
      if (id, g) in approved || g in before then before else before + [g]
  }

  ghost predicate MayEndorse(s: Store, id: nat, g: Address)
    requires id in s.requests && ActiveDocument(s, s.requests[id].documentId)
  {
    g in VaultOf(s, id).guardians && g != s.requests[id].requester && (VaultIdOf(s, id), g) in s.blsKeys
  }

  // The store with these approvals added to request id, and nothing else.
  ghost predicate Endorsed(s: Store, t: Store, id: nat, more: seq<Address>)
    requires id in s.requests
  {
    && t.requests == s.requests[id := s.requests[id].(approvedBy := s.requests[id].approvedBy + more)]
    && Recorded(s, t, id, more)
    && t == s.(requests := t.requests, approved := t.approved)
  }

  // The stored flags are those before and these guardians' for request id.
  ghost predicate Recorded(s: Store, t: Store, id: nat, more: seq<Address>) {
    forall r: nat, a :: (r, a) in t.approved <==> (r, a) in s.approved || (r == id && a in more)
  }

  lemma EndorsedNone(s: Store, id: nat)
    requires id in s.requests
    ensures Endorsed(s, s, id, [])
  {
    assert s.requests[id].approvedBy + [] == s.requests[id].approvedBy;
  }

  lemma EndorsedOne(s: Store, t: Store, id: nat, more: seq<Address>, g: Address)
    requires id in s.requests && Endorsed(s, t, id, more)
    ensures id in t.requests && Endorsed(s, Endorse(t, id, g), id, more + [g])
  {
    assert (s.requests[id].approvedBy + more) + [g] == s.requests[id].approvedBy + (more + [g]);
  }

  lemma {:induction false} EndorseAllLaw(s: Store, id: nat, guardians: seq<Address>, n: nat)
    requires n <= |guardians| && id in s.requests && ActiveDocument(s, s.requests[id].documentId)
    ensures var o := EndorseAll(s, id, guardians, n);
            && (o.Done? <==> forall i :: 0 <= i < n ==> MayEndorse(s, id, guardians[i]))
            && (o.Done? ==> Endorsed(s, o.state, id, Newcomers(s.approved, id, guardians, n)))
  {
    if n == 0 {
      EndorsedNone(s, id);
    } else {
      EndorseAllLaw(s, id, guardians, n - 1);
      var before, g := EndorseAll(s, id, guardians, n - 1), guardians[n - 1];
      var more := Newcomers(s.approved, id, guardians, n - 1);
      if before.Done? {
        OnRecord(s, before.state, id, more, g);
        if (id, g) !in before.state.approved {
          EndorsedOne(s, before.state, id, more, g);
        }
      }
      hide ActiveDocument, VaultOf, VaultIdOf, Endorsed, Endorse;
      assert MayEndorse(s, id, g)
        <==> !(g !in VaultOf(s, id).guardians || g == s.requests[id].requester || (VaultIdOf(s, id), g) !in s.blsKeys);
    }
  }

  lemma OnRecord(s: Store, t: Store, id: nat, more: seq<Address>, g: Address)
    requires id in s.requests && Endorsed(s, t, id, more)
    ensures (id, g) in t.approved <==> (id, g) in s.approved || g in more
  {}

  // A valid aggregate signature counts for every listed guardian with a registered key; each of those not yet on
  // record is added once.
  lemma ApproveBlsLaw(s: Store, id: nat, guardians: seq<Address>, valid: bool, now: Time)
    ensures var o := Step(s, ApproveBls(id, guardians, valid), now);
            && (o.Done? <==> MayBeDecided(s, id, now) && |guardians| >= VaultOf(s, id).approvalThreshold && valid
                             && forall i :: 0 <= i < |guardians| ==> MayEndorse(s, id, guardians[i]))
            && (o.Done? ==>
                  var more := Newcomers(s.approved, id, guardians, |guardians|);
                  && Settled(s, o.state, id, s.requests[id].approvedBy + more)
                  && Recorded(s, o.state, id, more))
  {
    if Approvable(s, id, now) {
      EndorseAllLaw(s, id, guardians, |guardians|);
      if EndorseAll(s, id, guardians, |guardians|).Done? {
        hide EndorseAll, MayEndorse, Newcomers, VaultOf, VaultIdOf, Endorsed;
        EndorsedConcludes(s, EndorseAll(s, id, guardians, |guardians|).state, id,
                          Newcomers(s.approved, id, guardians, |guardians|));
      }
    }
    hide EndorseAll, MayEndorse, Newcomers, VaultOf, VaultIdOf, Conclude, Settled, Endorsed, Recorded;
  }

  lemma EndorsedConcludes(s: Store, e: Store, id: nat, more: seq<Address>)
    requires id in s.requests && ActiveDocument(s, s.requests[id].documentId) && s.requests[id].status == Pending
    requires Endorsed(s, e, id, more) && id in e.requests && e.requests[id].documentId in e.docs
    ensures var t := Conclude(e, id, VaultOf(s, id).approvalThreshold);
            Settled(s, t, id, s.requests[id].approvedBy + more) && Recorded(s, t, id, more)
  {
    ConcludeLaw(s, e, id, s.requests[id].approvedBy + more);
    hide Settled, Conclude;
  }
}

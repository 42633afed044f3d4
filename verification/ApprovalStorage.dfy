/** The storage of contracts-stellar/src/lib.rs behind vaults, documents and requests, and the entry points
    that write it; each is the transition of the same name in Approvals. */
module ApprovalStorage {
  import opened Text
  import opened Ledger
  import opened Approvals
  import CrossChain
  import FheOnChain

  // Where a call panics the host restores the storage: the methods return false and change nothing.
  class VaultStorage {
    var vaults: map<nat, Vault>
    var docs: map<nat, Document>
    var requests: map<nat, Request>
    var invites: map<Address, seq<Invite>>
    var vaultCount: nat
    var docCount: nat
    var reqCount: nat
    var approved: set<(nat, Address)>
    var blsKeys: set<(nat, Address)>
    var hasAccess: map<(nat, Address), bool>
    var level: map<(nat, Address), Level>
    var version: map<(nat, Address), nat>
    var fheShares: map<(nat, Address), seq<nat>>
    var accumulators: map<nat, seq<nat>>
    var accumulated: map<nat, nat>
    var vaultGid: map<seq<nat>, nat>
    var crossChainRevoker: map<nat, seq<nat>>
    var revocationNonce: map<(seq<nat>, nat, Address), nat>

    function State(): Store
      reads this
    {
      Store(vaults, docs, requests, invites, vaultCount, docCount, reqCount, approved, blsKeys,
            hasAccess, level, version, fheShares, accumulators, accumulated)
    }

    function Linked(): CrossChain.Links
      reads this
    {
      CrossChain.Links(vaultGid, crossChainRevoker, revocationNonce)
    }

    constructor ()
      ensures State() == EMPTY && Linked() == CrossChain.UNLINKED
    {
      vaults, docs, requests, invites := map[], map[], map[], map[];
      vaultCount, docCount, reqCount := 0, 0, 0;
      approved, blsKeys := {}, {};
      hasAccess, level, version := map[], map[], map[];
      fheShares, accumulators, accumulated := map[], map[], map[];
      vaultGid, crossChainRevoker, revocationNonce := map[], map[], map[];
    }

    // Checks the guardian list: no one twice, and at least one besides the creator.
    method CountGuardians(creator: Address, guardians: seq<Address>) returns (ok: bool, external: nat)
      ensures ok == Distinct(guardians)
      ensures ok ==> external == External(guardians, creator, |guardians|)
    {
      external := 0;
      var processed: seq<Address> := [];
      for i := 0 to |guardians|
        invariant processed == guardians[..i] && Distinct(processed)
        invariant external == External(guardians, creator, i)
      {
        var guardian := guardians[i];
        if guardian in processed {
          return false, 0;
        }
        processed := processed + [guardian];
        if guardian != creator {
          external := external + 1;
        }
      }
      assert guardians[..|guardians|] == guardians;
      ok := true;
    }

    method CreateVault(creator: Address, guardians: seq<Address>, threshold: nat, now: Time) returns (ok: bool)
      modifies this`vaults, this`vaultCount, this`invites
      ensures var o := CreateVaultStep(old(State()), creator, guardians, threshold, now);
              ok == o.Done? && State() == After(old(State()), o)
    {
      hide Distinct, AddInvites;
      var distinct, external := CountGuardians(creator, guardians);
      if !distinct || external == 0 || threshold == 0 || threshold > external + 1 {
        return false;
      }
      if vaultCount == U64_MAX || now.timestamp + INVITE_PERIOD > U64_MAX {
        return false;
      }
      var id := vaultCount + 1;
      vaultCount := id;
      vaults := vaults[id := Vault(creator, [creator], threshold, true)];
      Invitations(creator, guardians, Invite(id, false, now.timestamp + INVITE_PERIOD));
      return true;
    }

    // One more invitation for everyone listed but the creator.
    method Invitations(creator: Address, guardians: seq<Address>, invite: Invite)
      modifies this`invites
      ensures invites == AddInvites(old(invites), guardians, creator, invite, |guardians|)
    {
      for i := 0 to |guardians|
        invariant invites == AddInvites(old(invites), guardians, creator, invite, i)
      {
        var guardian := guardians[i];
        if guardian != creator {
          var mine := if guardian in invites then invites[guardian] else [];
          invites := invites[guardian := mine + [invite]];
        }
      }
    }

    method AcceptGuardianInvite(guardian: Address, vaultId: nat, now: Time) returns (ok: bool)
      modifies this
      ensures Linked() == old(Linked())
      ensures var o := AcceptInviteStep(old(State()), guardian, vaultId, now);
              ok == o.Done? && State() == After(old(State()), o)
    {
      if vaultId !in vaults || !vaults[vaultId].isActive || guardian in vaults[vaultId].guardians || guardian !in invites {
        return false;
      }
      var mine := invites[guardian];
      var i := 0;
      while i < |mine| && !(mine[i].vaultId == vaultId && !mine[i].accepted)
        invariant i <= |mine|
        invariant OpenInvite(mine, vaultId, i) == OpenInvite(mine, vaultId)
      {
        i := i + 1;
      }
      if i == |mine| || now.timestamp >= mine[i].expiresAt {
        return false;
      }
      invites := invites[guardian := mine[i := mine[i].(accepted := true)]];
      vaults := vaults[vaultId := vaults[vaultId].(guardians := vaults[vaultId].guardians + [guardian])];
      return true;
    }

    method DeactivateVault(owner: Address, vaultId: nat) returns (ok: bool)
      modifies this`vaults
      ensures var o := DeactivateStep(old(State()), owner, vaultId);
              ok == o.Done? && State() == After(old(State()), o)
    {
      if vaultId !in vaults || vaults[vaultId].creator != owner || !vaults[vaultId].isActive {
        return false;
      }
      vaults := vaults[vaultId := vaults[vaultId].(isActive := false)];
      return true;
    }

    method RegisterBlsPubkey(guardian: Address, vaultId: nat, possessed: bool) returns (ok: bool)
      modifies this`blsKeys
      ensures var o := RegisterBlsKeyStep(old(State()), guardian, vaultId, possessed);
              ok == o.Done? && State() == After(old(State()), o)
    {
      if vaultId !in vaults || !vaults[vaultId].isActive || guardian !in vaults[vaultId].guardians || !possessed {
        return false;
      }
      blsKeys := blsKeys + {(vaultId, guardian)};
      return true;
    }

    method AddDocument(uploader: Address, vaultId: nat, required: Level, wellFormed: bool) returns (ok: bool)
      modifies this`docs, this`docCount, this`hasAccess, this`level
      ensures var o := AddDocumentStep(old(State()), uploader, vaultId, required, wellFormed);
              ok == o.Done? && State() == After(old(State()), o)
    {
      if vaultId !in vaults || !vaults[vaultId].isActive || uploader !in vaults[vaultId].guardians || !wellFormed
         || docCount == U64_MAX {
        return false;
      }
      docCount := docCount + 1;
      docs := docs[docCount := Document(vaultId, uploader, required)];
      hasAccess := hasAccess[(docCount, uploader) := true];
      level := level[(docCount, uploader) := required];
      return true;
    }

    method RequestDocument(requester: Address, documentId: nat, released: Outcome<bool>, now: Time) returns (ok: bool)
      modifies this
      ensures Linked() == old(Linked())
      ensures var o := RequestAccessStep(old(State()), requester, documentId, released, now);
              ok == o.Done? && State() == After(old(State()), o)
    {
      if documentId !in docs || docs[documentId].vaultId !in vaults || !vaults[docs[documentId].vaultId].isActive {
        return false;
      }
      if (documentId, requester) in hasAccess && hasAccess[(documentId, requester)] {
        return false;
      }
      if released != Done(true) || reqCount == U64_MAX || now.timestamp + REQUEST_PERIOD > U64_MAX {
        return false;
      }
      reqCount := reqCount + 1;
      requests := requests[reqCount := Request(documentId, requester, [], Pending, now.timestamp + REQUEST_PERIOD)];
      return true;
    }

    // The checks shared by the four ways to approve.
    method LoadPending(id: nat, now: Time) returns (ok: bool)
      ensures ok == Approvable(State(), id, now)
    {
      return id in requests && requests[id].status == Pending && now.timestamp < requests[id].expiresAt
        && requests[id].documentId in docs && docs[requests[id].documentId].vaultId in vaults
        && vaults[docs[requests[id].documentId].vaultId].isActive;
    }

    // Writes the request back, approved and with access granted if the threshold is reached.
    method Settle(id: nat, request: Request, threshold: nat)
      requires id in requests && request.documentId in docs
      modifies this`requests, this`hasAccess, this`level
      ensures State() == Conclude(old(State()).(requests := old(requests)[id := request]), id, threshold)
    {
      var decided := request;
      if |request.approvedBy| >= threshold {
        decided := request.(status := Approved);
        hasAccess := hasAccess[(request.documentId, request.requester) := true];
        level := level[(request.documentId, request.requester) := docs[request.documentId].requiredAccess];
      }
      requests := requests[id := decided];
    }

    method ApproveAccess(approver: Address, id: nat, now: Time) returns (ok: bool)
      modifies this
      ensures Linked() == old(Linked())
      ensures var o := ApproveStep(old(State()), approver, id, now);
              ok == o.Done? && State() == After(old(State()), o)
    {
      var pending := LoadPending(id, now);
      if !pending {
        return false;
      }
      var request := requests[id];
      var vault := vaults[docs[request.documentId].vaultId];
      if approver !in vault.guardians || (id, approver) in approved {
        return false;
      }
      approved := approved + {(id, approver)};
      request := request.(approvedBy := request.approvedBy + [approver]);
      Settle(id, request, vault.approvalThreshold);
      return true;
    }

    method ApproveAccessThreshold(id: nat, verified: bool, now: Time) returns (ok: bool)
      modifies this
      ensures Linked() == old(Linked())
      ensures var o := ApproveThresholdStep(old(State()), id, verified, now);
              ok == o.Done? && State() == After(old(State()), o)
    {
      var pending := LoadPending(id, now);
      if !pending || !verified {
        return false;
      }
      var request := requests[id];
      hasAccess := hasAccess[(request.documentId, request.requester) := true];
      level := level[(request.documentId, request.requester) := docs[request.documentId].requiredAccess];
      requests := requests[id := request.(status := Approved)];
      return true;
    }

    // The loop over the listed guardians: their flags and the request with their approvals.
    method CollectEndorsements(id: nat, guardians: seq<Address>) returns (ok: bool, flags: set<(nat, Address)>, request: Request)
      requires id in requests && ActiveDocument(State(), requests[id].documentId)
      ensures ok == EndorseAll(State(), id, guardians, |guardians|).Done?
      ensures ok ==> EndorseAll(State(), id, guardians, |guardians|).state == State().(approved := flags, requests := requests[id := request])
    {
      request := requests[id];
      flags := approved;
      var vaultId := docs[request.documentId].vaultId;
      var vault := vaults[vaultId];
      assert requests[id := request] == requests;
      for i := 0 to |guardians|
        invariant request.documentId == requests[id].documentId && request.requester == requests[id].requester
        invariant EndorseAll(State(), id, guardians, i) == Done(State().(approved := flags, requests := requests[id := request]))
      {
        var guardian := guardians[i];
        if guardian !in vault.guardians || guardian == request.requester || (vaultId, guardian) !in blsKeys {
          EndorseAllStops(State(), id, guardians, i + 1, |guardians|);
          return false, flags, request;
        }
        if (id, guardian) !in flags {
          flags := flags + {(id, guardian)};
          ghost var before := request;
          request := request.(approvedBy := request.approvedBy + [guardian]);
          assert requests[id := before][id := request] == requests[id := request];
        }
      }
      ok := true;
    }

    method ApproveAccessBls(id: nat, guardians: seq<Address>, valid: bool, now: Time) returns (ok: bool)
      modifies this
      ensures Linked() == old(Linked())
      ensures var o := ApproveBlsStep(old(State()), id, guardians, valid, now);
              ok == o.Done? && State() == After(old(State()), o)
    {
      hide EndorseAll, Conclude;
      var pending := LoadPending(id, now);
      if !pending {
        return false;
      }
      var vault := vaults[docs[requests[id].documentId].vaultId];
      if |guardians| < vault.approvalThreshold || !valid {
        return false;
      }
      var collected, flags, request := CollectEndorsements(id, guardians);
      if !collected {
        return false;
      }
      approved := flags;
      Settle(id, request, vault.approvalThreshold);
      return true;
    }

    // Stores a share and adds it to the request's accumulator; stored values are byte strings.
    method AddShare(id: nat, approver: Address, share: seq<nat>) returns (ok: bool)
      requires FheOnChain.AreBytes(share)
      requires id in accumulators ==> FheOnChain.AreBytes(accumulators[id])
      modifies this`fheShares, this`accumulators, this`accumulated
      ensures var o := Submit(old(State()), id, approver, share);
              ok == o.Done? && State() == After(old(State()), o)
    {
      hide FheOnChain.FheAddBytes, FheOnChain.AreBytes;
      if |share| > 0 {
        var current := if id in accumulators then accumulators[id] else [];
        var count := if id in accumulated then accumulated[id] else 0;
        NoBytes();
        var sum := FheOnChain.FheAddOnChain(current, share);
        if sum.Panic? || count + 1 > U32_MAX {
          return false;
        }
        fheShares := fheShares[(id, approver) := share];
        accumulators := accumulators[id := sum.bytes];
        accumulated := accumulated[id := count + 1];
      }
      return true;
    }

    method ApproveAccessFhe(approver: Address, id: nat, share: seq<nat>, now: Time) returns (ok: bool)
      requires FheOnChain.AreBytes(share)
      requires id in accumulators ==> FheOnChain.AreBytes(accumulators[id])
      modifies this`approved, this`requests, this`hasAccess, this`level, this`fheShares, this`accumulators, this`accumulated
      ensures var o := ApproveFheStep(old(State()), approver, id, share, now);
              ok == o.Done? && State() == After(old(State()), o)
    {
      hide FheOnChain.AreBytes, FheOnChain.Accumulate, Conclude;
      var pending := LoadPending(id, now);
      if !pending {
        return false;
      }
      var request := requests[id];
      var vault := vaults[docs[request.documentId].vaultId];
      if request.requester == approver || approver !in vault.guardians || (id, approver) in approved {
        return false;
      }
      var added := AddShare(id, approver, share);
      if !added {
        return false;
      }
      approved := approved + {(id, approver)};
      request := request.(approvedBy := request.approvedBy + [approver]);
      Settle(id, request, vault.approvalThreshold);
      return true;
    }

    // The access goes and its version moves on; not ok where the version cannot.
    method ApplyRevocation(documentId: nat, target: Address) returns (ok: bool)
      modifies this`hasAccess, this`level, this`version
      ensures var o := Revoke(old(State()), documentId, target);
              ok == o.Done? && State() == After(old(State()), o)
    {
      if documentId in docs {
        var at := (docs[documentId].vaultId, target);
        var current := if at in version then version[at] else 1;
        if current == U64_MAX {
          return false;
        }
        version := version[at := current + 1];
      }
      hasAccess := hasAccess[(documentId, target) := false];
      level := level - {(documentId, target)};
      return true;
    }

    method RevokeAccess(guardian: Address, documentId: nat, target: Address) returns (ok: bool)
      modifies this
      ensures Linked() == old(Linked())
      ensures var o := RevokeStep(old(State()), guardian, documentId, target);
              ok == o.Done? && State() == After(old(State()), o)
    {
      if documentId !in docs || docs[documentId].vaultId !in vaults
         || guardian !in vaults[docs[documentId].vaultId].guardians {
        return false;
      }
      ok := ApplyRevocation(documentId, target);
    }

    method LinkCrossChainVault(owner: Address, vaultId: nat, gid: seq<nat>, revoker: seq<nat>) returns (ok: bool)
      modifies this`vaultGid, this`crossChainRevoker
      ensures var o := CrossChain.LinkStep(State(), old(Linked()), owner, vaultId, gid, revoker);
              ok == o.Done? && Linked() == After(old(Linked()), o)
    {
      if vaultId !in vaults || vaults[vaultId].creator != owner || gid in vaultGid {
        return false;
      }
      vaultGid := vaultGid[gid := vaultId];
      crossChainRevoker := crossChainRevoker[vaultId := revoker];
      return true;
    }

    method RelayRevokeAccess(host: CrossChain.Host, b: CrossChain.Broadcast, signature: seq<nat>) returns (ok: bool)
      modifies this
      ensures var w := CrossChain.Bridge(old(State()), old(Linked()));
              var o := CrossChain.RelayStep(host, w, b, signature);
              ok == o.Done? && CrossChain.Bridge(State(), Linked()) == After(w, o)
    {
      hide CrossChain.Payload, Revoke;
      if b.gid !in vaultGid {
        return false;
      }
      var vaultId := vaultGid[b.gid];
      if b.documentId !in docs || docs[b.documentId].vaultId != vaultId {
        return false;
      }
      var nonceKey := (b.gid, b.documentId, b.user);
      var lastNonce := if nonceKey in revocationNonce then revocationNonce[nonceKey] else 0;
      if b.nonce <= lastNonce || vaultId !in crossChainRevoker {
        return false;
      }
      var recovered := host.recover(CrossChain.Payload(host, b), signature);
      if recovered != Some(crossChainRevoker[vaultId]) {
        return false;
      }
      ok := ApplyRevocation(b.documentId, b.user);
      if ok {
        revocationNonce := revocationNonce[nonceKey := b.nonce];
      }
    }
  }

  lemma NoBytes()
    ensures FheOnChain.AreBytes([])
  {}

  // A guardian the loop refuses makes the whole call panic.
  lemma {:induction false} EndorseAllStops(s: Store, id: nat, guardians: seq<Address>, n: nat, m: nat)
    requires n <= m <= |guardians| && id in s.requests && ActiveDocument(s, s.requests[id].documentId)
    requires EndorseAll(s, id, guardians, n).Reverted?
    ensures EndorseAll(s, id, guardians, m).Reverted?
  {
    if n < m {
      EndorseAllStops(s, id, guardians, n, m - 1);
    }
  }
}

/** Revocations broadcast from the EVM side in contracts-stellar/src/lib.rs: which vault a broadcast is for, what
    its signature covers, and why none takes effect twice. */
module CrossChain {
  import Numbers
  import opened Radix
  import opened Text
  import opened Ledger
  import opened Approvals
  import opened ApprovalRuns
  import opened ApprovalLaws
  import opened AccessHistory

  // The host's encoding of addresses, and the address a signature over a payload recovers to, if to any.
  datatype Host = Host(xdr: Address -> seq<nat>, recover: (seq<nat>, seq<nat>) -> Option<seq<nat>>)

  // Linked vaults by global id, the revoker each vault is linked with, and the last nonce of each broadcast subject.
  datatype Links = Links(vaultOf: map<seq<nat>, nat>, revokers: map<nat, seq<nat>>, nonces: map<(seq<nat>, nat, Address), nat>)

  const UNLINKED := Links(map[], map[], map[])

  datatype Broadcast = Broadcast(gid: seq<nat>, documentId: nat, evmUser: seq<nat>, user: Address, nonce: nat)

  // ----- what is signed -----

  const REVOKE_ACCESS: seq<nat> := [0x52, 0x65, 0x76, 0x6F, 0x6B, 0x65, 0x41, 0x63, 0x63, 0x65, 0x73, 0x73]

  function U256Be(n: nat): seq<nat> {
    Pad(Digits(n, 256), 32)
  }

  function Payload(host: Host, b: Broadcast): seq<nat> {
    Heading(b) + host.xdr(b.user) + U256Be(b.nonce)
  }

  function Heading(b: Broadcast): seq<nat> {
    REVOKE_ACCESS + b.gid + U256Be(b.documentId) + b.evmUser
  }

  // The widths of the contract's argument types.
  predicate Fits(b: Broadcast) {
    |b.gid| == 32 && |b.evmUser| == 20 && b.documentId <= U64_MAX && b.nonce <= U64_MAX
  }

  lemma U64Width(n: nat)
    requires n <= U64_MAX
    ensures |U256Be(n)| == 32 && Value(U256Be(n), 256) == n
  {
    assert Numbers.Pow(256, 8) == U64_MAX + 1 by { EightBytes(); }
    DigitCount(n, 8, 256);
    ValueDigits(n, 256);
    ValuePad(Digits(n, 256), 32, 256);
  }

  lemma EightBytes()
    ensures Numbers.Pow(256, 8) == U64_MAX + 1
  {
    assert Numbers.Pow(256, 2) == 0x1_0000;
    assert Numbers.Pow(256, 4) == 0x1_0000_0000;
    assert Numbers.Pow(256, 6) == 0x1_0000_0000_0000;
  }

  lemma Parts(a: seq<nat>, b: seq<nat>, x: seq<nat>, y: seq<nat>)
    requires a + x == b + y && |a| == |b|
    ensures a == b && x == y
  {
    assert a == (a + x)[..|a|] && b == (b + y)[..|b|];
    assert x == (a + x)[|a|..] && y == (b + y)[|b|..];
  }

  lemma Middle(a: seq<nat>, b: seq<nat>, x: seq<nat>, y: seq<nat>, m: seq<nat>, n: seq<nat>)
    requires a + x + m == b + y + n && |a| == |b| && |m| == |n|
    ensures a == b && x == y && m == n
  {
    Parts(a + x, b + y, m, n);
    Parts(a, b, x, y);
  }

  lemma HeadingBinds(a: Broadcast, b: Broadcast)
    requires Fits(a) && Fits(b)
    ensures |Heading(a)| == |Heading(b)|
    ensures Heading(a) == Heading(b) ==> a.gid == b.gid && a.documentId == b.documentId && a.evmUser == b.evmUser
  {
    U64Width(a.documentId);
    U64Width(b.documentId);
    hide U256Be;
    if Heading(a) == Heading(b) {
      Parts(REVOKE_ACCESS + a.gid + U256Be(a.documentId), REVOKE_ACCESS + b.gid + U256Be(b.documentId), a.evmUser, b.evmUser);
      Parts(REVOKE_ACCESS + a.gid, REVOKE_ACCESS + b.gid, U256Be(a.documentId), U256Be(b.documentId));
      Parts(REVOKE_ACCESS, REVOKE_ACCESS, a.gid, b.gid);
    }
  }

  // A signature is good for one broadcast only: vault, document, both users and nonce are all covered.
  lemma PayloadBinds(host: Host, a: Broadcast, b: Broadcast)
    requires Fits(a) && Fits(b) && Payload(host, a) == Payload(host, b)
    ensures a.gid == b.gid && a.documentId == b.documentId && a.evmUser == b.evmUser && a.nonce == b.nonce
    ensures host.xdr(a.user) == host.xdr(b.user)
  {
    U64Width(a.nonce);
    U64Width(b.nonce);
    HeadingBinds(a, b);
    hide U256Be, Heading;
    Middle(Heading(a), Heading(b), host.xdr(a.user), host.xdr(b.user), U256Be(a.nonce), U256Be(b.nonce));
  }

  // ----- links and broadcasts -----

  function LinkStep(s: Store, links: Links, owner: Address, vaultId: nat, gid: seq<nat>, revoker: seq<nat>): Outcome<Links> {
    if vaultId !in s.vaults || s.vaults[vaultId].creator != owner || gid in links.vaultOf then Reverted
    else Done(links.(vaultOf := links.vaultOf[gid := vaultId], revokers := links.revokers[vaultId := revoker]))
  }

  function LastNonce(links: Links, gid: seq<nat>, documentId: nat, user: Address): nat {
    if (gid, documentId, user) in links.nonces then links.nonces[(gid, documentId, user)] else 0
  }

  // The linked revoker signed the broadcast, and its nonce is fresh.
  predicate Authentic(host: Host, links: Links, vaultId: nat, b: Broadcast, signature: seq<nat>) {
    && LastNonce(links, b.gid, b.documentId, b.user) < b.nonce
    && vaultId in links.revokers && host.recover(Payload(host, b), signature) == Some(links.revokers[vaultId])
  }

  // Vaults and access together with the links.
  datatype Bridge = Bridge(store: Store, links: Links)

  const NEW_BRIDGE := Bridge(EMPTY, UNLINKED)

  function RelayStep(host: Host, w: Bridge, b: Broadcast, signature: seq<nat>): Outcome<Bridge> {
    if b.gid !in w.links.vaultOf then Reverted else
      var vaultId := w.links.vaultOf[b.gid];
      match RelayRevokeStep(w.store, vaultId, b.documentId, b.user, Authentic(host, w.links, vaultId, b, signature))
      case Reverted => Reverted
      case Done(s) => Done(Bridge(s, w.links.(nonces := w.links.nonces[(b.gid, b.documentId, b.user) := b.nonce])))
  }

  datatype Message =
    | LinkVault(owner: Address, vaultId: nat, gid: seq<nat>, revoker: seq<nat>)
    | Relay(broadcast: Broadcast, signature: seq<nat>)
    | Plain(event: Event)

  // Broadcasts come as such only.
  function Deliver(host: Host, w: Bridge, m: Message, now: Time): Outcome<Bridge> {
    match m
    case LinkVault(owner, vaultId, gid, revoker) =>
      (match LinkStep(w.store, w.links, owner, vaultId, gid, revoker)
       case Reverted => Reverted
       case Done(links) => Done(w.(links := links)))
    case Relay(b, signature) => RelayStep(host, w, b, signature)
    case Plain(e) =>
      if e.RelayRevoke? then Reverted else
        match Step(w.store, e, now)
        case Reverted => Reverted
        case Done(s) => Done(w.(store := s))
  }

  // What a broadcast needs.
  lemma RelayWhen(host: Host, w: Bridge, b: Broadcast, signature: seq<nat>)
    ensures RelayStep(host, w, b, signature).Done?
            <==> b.gid in w.links.vaultOf && b.documentId in w.store.docs
                 && w.store.docs[b.documentId].vaultId == w.links.vaultOf[b.gid]
                 && Authentic(host, w.links, w.links.vaultOf[b.gid], b, signature)
                 && VersionOf(w.store, w.links.vaultOf[b.gid], b.user) != U64_MAX
  {
    if b.gid in w.links.vaultOf {
      var v := w.links.vaultOf[b.gid];
      RelayRevokeLaw(w.store, v, b.documentId, b.user, Authentic(host, w.links, v, b, signature), Time(0, 0));
    }
    hide Authentic, Revoke, Revoked;
  }

  lemma RelayRevokes(s: Store, v: nat, documentId: nat, user: Address, authentic: bool, now: Time)
    ensures Step(s, RelayRevoke(v, documentId, user, authentic), now) == RelayRevokeStep(s, v, documentId, user, authentic)
  {
    hide RelayRevokeStep;
  }

  // The subject's last nonce is this; the others stand.
  ghost predicate Numbered(before: Links, after: Links, b: Broadcast) {
    && after == before.(nonces := after.nonces)
    && LastNonce(after, b.gid, b.documentId, b.user) == b.nonce
    && forall g, d: nat, u :: (g, d, u) != (b.gid, b.documentId, b.user) ==> LastNonce(after, g, d, u) == LastNonce(before, g, d, u)
  }

  lemma NumberedBy(links: Links, b: Broadcast)
    ensures Numbered(links, links.(nonces := links.nonces[(b.gid, b.documentId, b.user) := b.nonce]), b)
  {}

  // What it does: the revocation, and its nonce on record.
  lemma RelayLaw(host: Host, w: Bridge, b: Broadcast, signature: seq<nat>)
    requires RelayStep(host, w, b, signature).Done?
    ensures var t := RelayStep(host, w, b, signature).state;
            && b.documentId in w.store.docs && Revoked(w.store, t.store, b.documentId, b.user)
            && Numbered(w.links, t.links, b)
  {
    var v := w.links.vaultOf[b.gid];
    RelayRevokeLaw(w.store, v, b.documentId, b.user, Authentic(host, w.links, v, b, signature), Time(0, 0));
    NumberedBy(w.links, b);
    RelayRevokes(w.store, v, b.documentId, b.user, Authentic(host, w.links, v, b, signature), Time(0, 0));
    hide Step, Authentic, RelayRevokeStep, Revoked, Numbered;
  }

  // ----- runs -----

  datatype Post = Post(message: Message, now: Time)

  function Drive(host: Host, posts: seq<Post>, n: nat): Bridge
    requires n <= |posts|
  {
    if n == 0 then NEW_BRIDGE else
      var w, p := Drive(host, posts, n - 1), posts[n - 1];
      After(w, Deliver(host, w, p.message, p.now))
  }

  // Message k completes.
  predicate Delivered(host: Host, posts: seq<Post>, k: nat)
    requires k < |posts|
  {
    Deliver(host, Drive(host, posts, k), posts[k].message, posts[k].now).Done?
  }

  // Nonces only grow.
  lemma NonceGrows(host: Host, w: Bridge, m: Message, now: Time, gid: seq<nat>, documentId: nat, user: Address)
    ensures LastNonce(w.links, gid, documentId, user) <= LastNonce(After(w, Deliver(host, w, m, now)).links, gid, documentId, user)
  {
    hide Step;
    if m.Relay? && Deliver(host, w, m, now).Done? {
      RelayWhen(host, w, m.broadcast, m.signature);
      RelayLaw(host, w, m.broadcast, m.signature);
      hide RelayStep, Revoked;
    }
  }

  lemma {:induction false} NoncesGrow(host: Host, posts: seq<Post>, m: nat, n: nat, gid: seq<nat>, documentId: nat, user: Address)
    requires m <= n <= |posts|
    ensures LastNonce(Drive(host, posts, m).links, gid, documentId, user) <= LastNonce(Drive(host, posts, n).links, gid, documentId, user)
    decreases n
  {
    if m < n {
      NoncesGrow(host, posts, m, n - 1, gid, documentId, user);
      NonceGrows(host, Drive(host, posts, n - 1), posts[n - 1].message, posts[n - 1].now, gid, documentId, user);
      hide Deliver, LastNonce;
    }
  }

  // Over runs: of two broadcasts on one subject the later has the larger nonce; so none takes effect twice.
  lemma NoReplay(host: Host, posts: seq<Post>, m: nat, n: nat)
    requires m < n < |posts| && Delivered(host, posts, m) && Delivered(host, posts, n)
    requires posts[m].message.Relay? && posts[n].message.Relay?
    ensures var a, b := posts[m].message.broadcast, posts[n].message.broadcast;
            a.gid == b.gid && a.documentId == b.documentId && a.user == b.user ==> a.nonce < b.nonce
  {
    var a, b := posts[m].message.broadcast, posts[n].message.broadcast;
    RelayLaw(host, Drive(host, posts, m), a, posts[m].message.signature);
    RelayWhen(host, Drive(host, posts, n), b, posts[n].message.signature);
    hide RelayStep, LastNonce, Revoked, Payload, VersionOf;
    NoncesGrow(host, posts, m + 1, n, a.gid, a.documentId, a.user);
  }

  // ----- where links come from -----

  // Message k linked vault v, by its creator.
  predicate LinkedAt(host: Host, posts: seq<Post>, k: nat, v: nat)
    requires k < |posts|
  {
    && posts[k].message.LinkVault? && posts[k].message.vaultId == v && Delivered(host, posts, k)
    && v in Drive(host, posts, k).store.vaults && Drive(host, posts, k).store.vaults[v].creator == posts[k].message.owner
  }

  lemma {:induction false} RevokerWasLinked(host: Host, posts: seq<Post>, n: nat, v: nat) returns (k: nat)
    requires n <= |posts| && v in Drive(host, posts, n).links.revokers
    ensures k < n && LinkedAt(host, posts, k, v) && posts[k].message.revoker == Drive(host, posts, n).links.revokers[v]
    decreases n
  {
    hide Step, Authentic, RelayRevokeStep;
    var m := posts[n - 1].message;
    if m.LinkVault? && m.vaultId == v && Delivered(host, posts, n - 1) {
      k := n - 1;
    } else {
      k := RevokerWasLinked(host, posts, n - 1, v);
    }
  }

  lemma {:induction false} GidWasLinked(host: Host, posts: seq<Post>, n: nat, gid: seq<nat>) returns (k: nat)
    requires n <= |posts| && gid in Drive(host, posts, n).links.vaultOf
    ensures k < n && LinkedAt(host, posts, k, Drive(host, posts, n).links.vaultOf[gid]) && posts[k].message.gid == gid
    decreases n
  {
    hide Step, Authentic, RelayRevokeStep;
    var w := Drive(host, posts, n - 1);
    if gid in w.links.vaultOf {
      k := GidWasLinked(host, posts, n - 1, gid);
    } else {
      k := n - 1;
    }
  }

  // Over runs: a broadcast that took effect was signed, over exactly its contents, by the revoker the vault's
  // creator had linked, and named a global id the creator had linked to the document's vault.
  lemma RelayWasAuthorized(host: Host, posts: seq<Post>, n: nat) returns (j: nat, k: nat)
    requires n < |posts| && posts[n].message.Relay? && Delivered(host, posts, n)
    ensures var w, b := Drive(host, posts, n), posts[n].message.broadcast;
            && b.documentId in w.store.docs && j < n && k < n
            && var v := w.store.docs[b.documentId].vaultId;
               && LinkedAt(host, posts, j, v) && posts[j].message.gid == b.gid
               && LinkedAt(host, posts, k, v)
               && host.recover(Payload(host, b), posts[n].message.signature) == Some(posts[k].message.revoker)
  {
    var w, b := Drive(host, posts, n), posts[n].message.broadcast;
    RelayWhen(host, w, b, posts[n].message.signature);
    hide RelayStep, Drive, Payload, LinkedAt;
    j := GidWasLinked(host, posts, n, b.gid);
    k := RevokerWasLinked(host, posts, n, w.links.vaultOf[b.gid]);
  }

  // ----- the same run without the bridge -----

  // A call that panics.
  const NOTHING := RelayRevoke(0, 0, Account(0), false)

  // What a message asks of vaults and access.
  function Asks(host: Host, links: Links, m: Message): Event {
    match m
    case LinkVault(_, _, _, _) => NOTHING
    case Relay(b, signature) =>
      if b.gid !in links.vaultOf then NOTHING
      else RelayRevoke(links.vaultOf[b.gid], b.documentId, b.user, Authentic(host, links, links.vaultOf[b.gid], b, signature))
    case Plain(e) => if e.RelayRevoke? then NOTHING else e
  }

  function Told(host: Host, posts: seq<Post>): (calls: seq<Call>)
    ensures |calls| == |posts|
  {
    seq(|posts|, k requires 0 <= k < |posts| => Call(Asks(host, Drive(host, posts, k).links, posts[k].message), posts[k].now))
  }

  lemma AsksStep(host: Host, w: Bridge, m: Message, now: Time)
    ensures After(w, Deliver(host, w, m, now)).store == After(w.store, Step(w.store, Asks(host, w.links, m), now))
    ensures m.Relay? && Deliver(host, w, m, now).Done? ==> Step(w.store, Asks(host, w.links, m), now).Done?
  {
    hide Authentic, CreateVaultStep, AcceptInviteStep, AddDocumentStep, RequestAccessStep, ApproveStep, ApproveThresholdStep,
      ApproveBlsStep, ApproveFheStep, Revoke;
  }

  // Every run with links is, on vaults and access, a run without: all that holds of those holds here.
  lemma {:induction false} RunsWithout(host: Host, posts: seq<Post>, n: nat)
    requires n <= |posts|
    ensures StoreAt(Told(host, posts), n) == Drive(host, posts, n).store
  {
    hide Step, Deliver, Asks;
    if n > 0 {
      RunsWithout(host, posts, n - 1);
      NextStore(Told(host, posts), n - 1);
      AsksStep(host, Drive(host, posts, n - 1), posts[n - 1].message, posts[n - 1].now);
    }
  }

  // Over runs: once a broadcast took effect, its user has access to the document only by a later decision.
  lemma RelayedRevocationHolds(host: Host, posts: seq<Post>, m: nat, n: nat)
    requires m < n <= |posts| && posts[m].message.Relay? && Delivered(host, posts, m)
    ensures var b := posts[m].message.broadcast;
            HasAccess(Drive(host, posts, n).store, b.documentId, b.user)
            ==> DecidedBetween(Told(host, posts), m + 1, n, b.documentId, b.user)
  {
    var b, calls := posts[m].message.broadcast, Told(host, posts);
    RunsWithout(host, posts, m);
    RunsWithout(host, posts, n);
    AsksStep(host, Drive(host, posts, m), posts[m].message, posts[m].now);
    assert b.gid in Drive(host, posts, m).links.vaultOf;
    hide Step, Deliver, Authentic, Drive, StoreAt, DecidedBetween, HasAccess;
    AccessAfterRevocation(calls, m, n, b.documentId, b.user);
  }
}

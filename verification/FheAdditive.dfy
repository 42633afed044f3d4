/** The additive share services of fhe.service.ts, from creation to the decrypted aggregate. */
module FheAdditive {
  import opened Numbers
  import opened Text
  import opened Fhe
  import opened FheShares
  import opened FheWire

  // Shares below q that add up to the secret modulo q.
  ghost predicate AddsUp(shares: seq<nat>, secret: nat) {
    && (forall i :: 0 <= i < |shares| ==> shares[i] < FHE_PRIME)
    && Cong(SumOf(shares, |shares|), secret, FHE_PRIME)
  }

  /** The plaintext shares: all but the last are random, the last completes the sum. */
  method PlainShares(secret: nat, count: nat, draws: seq<nat>) returns (shares: seq<nat>)
    requires 1 <= count <= |draws| + 1
    ensures |shares| == count && AddsUp(shares, secret)
    ensures forall i :: 0 <= i < count - 1 ==> shares[i] == draws[i] % FHE_PRIME
  {
    hide Cong;
    shares := [];
    var sum: nat := 0;
    NoSum();
    for i := 0 to count - 1
      invariant |shares| == i && forall j :: 0 <= j < i ==> shares[j] == draws[j] % FHE_PRIME
      invariant sum < FHE_PRIME && Cong(sum, SumOf(shares, i), FHE_PRIME)
    {
      var share := draws[i] % FHE_PRIME;
      OneMore(shares, sum, share);
      sum := (sum + share) % FHE_PRIME;
      shares := shares + [share];
    }
    var lastShare := (secret - sum) % FHE_PRIME;
    Completes(shares, sum, secret);
    shares := shares + [lastShare];
  }

  lemma NoSum()
    ensures Cong(0, SumOf([], 0), FHE_PRIME)
  {}

  lemma OneMore(shares: seq<nat>, sum: nat, share: nat)
    requires Cong(sum, SumOf(shares, |shares|), FHE_PRIME)
    ensures Cong((sum + share) % FHE_PRIME, SumOf(shares + [share], |shares| + 1), FHE_PRIME)
  {
    SumOfPrefix(shares, shares + [share], |shares|);
    CongAdd(sum, SumOf(shares, |shares|), share, share, FHE_PRIME);
    CongMod(sum + share, FHE_PRIME);
  }

  lemma Completes(shares: seq<nat>, sum: nat, secret: nat)
    requires Cong(sum, SumOf(shares, |shares|), FHE_PRIME)
    ensures var last := (secret - sum) % FHE_PRIME;
            Cong(SumOf(shares + [last], |shares| + 1), secret, FHE_PRIME)
  {
    var last: nat := (secret - sum) % FHE_PRIME;
    SumOfPrefix(shares, shares + [last], |shares|);
    CongMod(secret - sum, FHE_PRIME);
    CongSymmetric(sum, SumOf(shares, |shares|), FHE_PRIME);
    CongAdd(SumOf(shares, |shares|), sum, last, secret - sum, FHE_PRIME);
  }

  // The ciphertexts stand for the shares under the key s.
  ghost predicate Encrypts(cts: seq<Ciphertext>, shares: seq<nat>, s: seq<nat>) {
    && |cts| == |shares|
    && forall i :: 0 <= i < |cts| ==> Reduced(cts[i]) && |cts[i].a| == |s| && Plain(cts[i], s) == shares[i]
  }

  // The payloads are the ciphertexts, serialized.
  ghost predicate AreSerialized(payloads: seq<string>, cts: seq<Ciphertext>) {
    |payloads| == |cts| && forall i :: 0 <= i < |cts| ==> payloads[i] == Serialized(cts[i])
  }

  /** createAdditiveSharesFHE: fails for no guardians or an unreadable secret. */
  method CreateAdditiveShares(secretHex: string, count: int, pk: PublicKey, draws: seq<nat>, encDraws: seq<seq<nat>>, ghost s: seq<nat>)
    returns (r: Option<(seq<nat>, seq<string>)>, ghost cts: seq<Ciphertext>)
    requires count <= |draws| + 1 && count <= |encDraws|
    requires pk.a != [] && IsKeypair(pk, s) && forall j :: 0 <= j < |encDraws| ==> |encDraws[j]| == |pk.a|
    ensures r.None? <==> count < 1 || Parse(CleanHex(secretHex), 16).None?
    ensures r.Some? ==>
              && |r.value.0| == count && AddsUp(r.value.0, Parse(CleanHex(secretHex), 16).value)
              && Encrypts(cts, r.value.0, s) && AreSerialized(r.value.1, cts)
              && (forall i :: 0 <= i < count - 1 ==> r.value.0[i] == draws[i] % FHE_PRIME)
              && forall i :: 0 <= i < count ==> IsEncryption(cts[i], r.value.0[i], pk, SmallVector(encDraws[i]), |s|)
  {
    hide Parse, Serialized, Plain, Reduced, AddsUp, IsEncryption, SmallVector;
    if count < 1 { return None, []; }
    var secret := Parse(CleanHex(secretHex), 16);
    if secret.None? { return None, []; }
    var secretVal := secret.value % FHE_PRIME;
    var shares := PlainShares(secretVal, count, draws);
    SameSecret(shares, secret.value);
    var payloads: seq<string> := [];
    cts := [];
    for i := 0 to count
      invariant |payloads| == |cts| == i
      invariant forall j :: 0 <= j < i ==> payloads[j] == Serialized(cts[j])
      invariant forall j :: 0 <= j < i ==> Reduced(cts[j]) && |cts[j].a| == |s| && Plain(cts[j], s) == shares[j]
      invariant forall j :: 0 <= j < i ==> IsEncryption(cts[j], shares[j], pk, SmallVector(encDraws[j]), |s|)
    {
      var ct := EncryptShare(shares[i], pk, encDraws[i], s);
      ShareBelow(shares, i, secret.value);
      var payload := Serialize(ct);
      payloads := payloads + [payload];
      cts := cts + [ct];
    }
    return Some((shares, payloads)), cts;
  }

  lemma SameSecret(shares: seq<nat>, secret: nat)
    requires AddsUp(shares, secret % FHE_PRIME)
    ensures AddsUp(shares, secret)
  {
    CongMod(secret, FHE_PRIME);
  }

  lemma ShareBelow(shares: seq<nat>, i: nat, secret: nat)
    requires AddsUp(shares, secret) && i < |shares|
    ensures shares[i] % FHE_PRIME == shares[i]
  {
    RemainderUnique(shares[i], FHE_PRIME, 0, shares[i]);
  }

  /** aggregateAdditiveShares: payloads of one dimension are added up. */
  method AggregateAdditiveShares(payloads: seq<string>, ghost cts: seq<Ciphertext>, ghost shares: seq<nat>, ghost s: seq<nat>)
    returns (r: Option<string>, ghost aggregate: Ciphertext)
    ensures AreSerialized(payloads, cts) && Encrypts(cts, shares, s) && cts != [] && 1 <= |s| < FHE_PRIME ==>
              && r == Some(Serialized(aggregate)) && Reduced(aggregate) && |aggregate.a| == |s|
              && Cong(Plain(aggregate, s), SumOf(shares, |shares|), FHE_PRIME)
  {
    hide Serialized, Plain, Reduced, Cong, Plains, SumOf;
    ghost var genuine := AreSerialized(payloads, cts) && Encrypts(cts, shares, s) && cts != [] && 1 <= |s| < FHE_PRIME;
    aggregate := Ciphertext([], 0);
    var read: seq<Ciphertext> := [];
    for i := 0 to |payloads|
      invariant genuine ==> read == cts[..i]
    {
      var ct := Deserialize(payloads[i], if genuine then cts[i] else Ciphertext([], 0));
      if ct.None? { return None, aggregate; }
      read := read + [ct.value];
    }
    assert genuine ==> read == cts;
    if genuine { PlainsAre(cts, shares, s); }
    var sum := AdditiveAggregate(read);
    if sum.None? { return None, aggregate; }
    var hex := Serialize(sum.value);
    return Some(hex), sum.value;
  }

  lemma PlainsAre(cts: seq<Ciphertext>, shares: seq<nat>, s: seq<nat>)
    requires Encrypts(cts, shares, s)
    ensures SameDimension(cts, |s|) && Plains(cts, s) == shares
  {
    hide Plain, Plains;
  }

  /** End to end: whatever the key pair, the random shares and the encryption randomness, the aggregate of all
      shares decrypts to the secret modulo q. */
  method CreateAggregateDecrypt(secretHex: string, count: int, pk: PublicKey, draws: seq<nat>, encDraws: seq<seq<nat>>, s: seq<nat>)
    returns (r: Option<string>)
    requires 1 <= count <= |draws| + 1 && count <= |encDraws| && Parse(CleanHex(secretHex), 16).Some?
    requires pk.a != [] && IsKeypair(pk, s) && 1 <= |s| < FHE_PRIME
    requires forall j :: 0 <= j < |encDraws| ==> |encDraws[j]| == |pk.a|
    ensures r == Some(Hex32(Parse(CleanHex(secretHex), 16).value))
  {
    var made, cts := CreateAdditiveShares(secretHex, count, pk, draws, encDraws, s);
    hide Parse, Serialized, Plain, Reduced, Hex32, IsKeypair;
    var hex, aggregate := AggregateAdditiveShares(made.value.1, cts, made.value.0, s);
    r := DecryptAggregate(hex.value, s, aggregate);
    SameHex(Plain(aggregate, s), Parse(CleanHex(secretHex), 16).value);
  }

  lemma SameHex(a: nat, b: nat)
    requires Cong(a, b, FHE_PRIME)
    ensures Hex32(a) == Hex32(b)
  {}
}

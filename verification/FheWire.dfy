/** Hexadecimal serialization of ciphertexts, and the share services of fhe.service.ts on it. */
module FheWire {
  import opened Numbers
  import opened Polynomials
  import opened Radix
  import opened Text
  import opened Fhe
  import opened FheShares

  // bigIntToHex32
  function Hex32(v: nat): string {
    PadStart(Print(v % FHE_PRIME, 16), 64)
  }

  lemma PrimeSize()
    ensures FHE_PRIME < Pow(16, 64) && FHE_PRIME < Pow(256, 32)
  {
    HexPowers();
  }

  lemma Hex32Reads(v: nat)
    ensures |Hex32(v)| == 64 && Parse(Hex32(v), 16) == Some(v % FHE_PRIME) && AreChars(Hex32(v), 16)
  {
    PrimeSize();
    DigitCount(v % FHE_PRIME, 64, 16);
    ParsePrint(v % FHE_PRIME, 64, 16);
  }

  // ----- serialization -----

  function Words(ct: Ciphertext): seq<nat> {
    [|ct.a|] + ct.a + [ct.b]
  }

  // The first n words.
  function HexWords(ws: seq<nat>, n: nat): string
    requires n <= |ws|
  {
    if n == 0 then "" else HexWords(ws, n - 1) + Hex32(ws[n - 1])
  }

  function Serialized(ct: Ciphertext): string {
    "0x" + HexWords(Words(ct), |ct.a| + 2)
  }

  /** serializeFheCiphertext. */
  method Serialize(ct: Ciphertext) returns (hex: string)
    ensures hex == Serialized(ct)
  {
    hide Hex32;
    hex := "0x" + Hex32(|ct.a|);
    var ws := Words(ct);
    assert HexWords(ws, 1) == HexWords(ws, 0) + Hex32(ws[0]);
    for i := 0 to |ct.a|
      invariant hex == "0x" + HexWords(ws, i + 1)
    {
      hex := hex + Hex32(ct.a[i]);
    }
    hex := hex + Hex32(ct.b);
  }

  lemma {:induction false} HexWordsSlices(ws: seq<nat>, i: nat, n: nat)
    requires i < n <= |ws|
    ensures |HexWords(ws, n)| == 64 * n
    ensures HexWords(ws, n)[64 * i..64 * i + 64] == Hex32(ws[i])
  {
    hide Hex32;
    Hex32Reads(ws[n - 1]);
    if n == 1 {
      assert HexWords(ws, 1) == HexWords(ws, 0) + Hex32(ws[0]);
    } else {
      HexWordsSlices(ws, if i < n - 1 then i else 0, n - 1);
    }
  }

  /** deserializeFheCiphertext; a short payload or an unreadable word throws. The ghost
      argument names the ciphertext behind a well-formed payload. */
  method Deserialize(hexInput: string, ghost from: Ciphertext) returns (r: Option<Ciphertext>)
    ensures hexInput == Serialized(from) && Reduced(from) && |from.a| < FHE_PRIME ==>
              r == if |from.a| >= 1 then Some(from) else None
  {
    hide Hex32, Parse, HexWords, Words, Serialized, SliceTo, Reduced;
    ghost var genuine := hexInput == Serialized(from) && Reduced(from) && |from.a| < FHE_PRIME;
    if genuine { SerializedShape(hexInput, from); }
    var hex := CleanHex(hexInput);
    if |hex| < 64 * 3 { return None; }
    if genuine { WordReads(hex, from, 0); }
    var dim := Parse(SliceTo(hex, 0, 64), 16);
    if dim.None? { return None; }
    var n := dim.value;
    var a: seq<nat> := [];
    for i := 0 to n
      invariant |a| == i
      invariant genuine ==> n == |from.a| && a == from.a[..i]
    {
      if genuine { WordReads(hex, from, i + 1); }
      var word := Parse(SliceTo(hex, 64 + 64 * i, 64 + 64 * i + 64), 16);
      if word.None? { return None; }
      a := a + [word.value];
    }
    if genuine { WordReads(hex, from, n + 1); }
    var b := Parse(SliceTo(hex, 64 + 64 * n, 64 + 64 * n + 64), 16);
    if b.None? { return None; }
    assert genuine ==> a == from.a && b.value == from.b;
    return Some(Ciphertext(a, b.value));
  }

  lemma SerializedShape(hexInput: string, from: Ciphertext)
    requires hexInput == Serialized(from)
    ensures CleanHex(hexInput) == HexWords(Words(from), |from.a| + 2) && |CleanHex(hexInput)| == 64 * (|from.a| + 2)
  {
    HexWordsSlices(Words(from), 0, |from.a| + 2);
  }

  // The dimension, the components, then the scalar.
  function WordAt(ct: Ciphertext, i: nat): nat
    requires i < |ct.a| + 2
  {
    if i == 0 then |ct.a| else if i <= |ct.a| then ct.a[i - 1] else ct.b
  }

  lemma WordReads(hex: string, from: Ciphertext, i: nat)
    requires hex == HexWords(Words(from), |from.a| + 2) && i < |from.a| + 2 && Reduced(from) && |from.a| < FHE_PRIME
    ensures |hex| == 64 * (|from.a| + 2) && Parse(SliceTo(hex, 64 * i, 64 * i + 64), 16) == Some(WordAt(from, i))
  {
    hide Hex32, Parse;
    var w := Words(from)[i];
    HexWordsSlices(Words(from), i, |from.a| + 2);
    Hex32Reads(w);
    RemainderUnique(w, FHE_PRIME, 0, w);
  }

  // ----- the services -----

  datatype HexShare = HexShare(index: nat, ciphertextHex: string)

  // The hex shares carry these ciphertexts of dimension n.
  ghost predicate Carries(hexShares: seq<HexShare>, shares: seq<EncryptedShare>, n: nat) {
    && |hexShares| == |shares| && 1 <= n < FHE_PRIME
    && forall i :: 0 <= i < |shares| ==>
         && hexShares[i] == HexShare(shares[i].index, Serialized(shares[i].ciphertext))
         && Reduced(shares[i].ciphertext) && |shares[i].ciphertext.a| == n
  }

  // The first threshold shares carried have different indices.
  ghost predicate CanAggregate(shares: seq<EncryptedShare>, threshold: nat) {
    1 <= threshold <= |shares| && Distinct(ReducePoints(Indices(shares[..threshold])), FHE_PRIME)
  }

  /** aggregateThresholdShares. */
  method AggregateThresholdShares(hexShares: seq<HexShare>, threshold: nat, ghost shares: seq<EncryptedShare>, ghost n: nat)
    returns (r: Option<string>, ghost lambdas: seq<nat>)
    requires IsPrime(FHE_PRIME)
    ensures Carries(hexShares, shares, n) ==> (r.Some? <==> CanAggregate(shares, threshold))
    ensures Carries(hexShares, shares, n) && r.Some? ==>
              && SameDimension(Ciphertexts(shares[..threshold]), n)
              && LagrangeWeights(ReducePoints(Indices(shares[..threshold])), lambdas, FHE_PRIME)
              && r.value == Serialized(Combine(lambdas, Ciphertexts(shares[..threshold]), threshold, n))
  {
    hide Serialized, ReducePoints, Indices, Ciphertexts, LagrangeWeights, Distinct, Reduced;
    ghost var genuine := Carries(hexShares, shares, n);
    var fheShares: seq<EncryptedShare> := [];
    for i := 0 to |hexShares|
      invariant genuine ==> fheShares == shares[..i]
    {
      var ct := Deserialize(hexShares[i].ciphertextHex, if genuine then shares[i].ciphertext else Ciphertext([], 0));
      if ct.None? { return None, []; }
      fheShares := fheShares + [EncryptedShare(hexShares[i].index, ct.value)];
    }
    assert genuine ==> fheShares == shares;
    var aggregate, weights := ThresholdAggregate(fheShares, threshold);
    if aggregate.None? { return None, []; }
    var hex := Serialize(aggregate.value);
    return Some(hex), weights;
  }

  /** decryptAggregateCiphertext. */
  method DecryptAggregate(aggregateHex: string, s: seq<nat>, ghost from: Ciphertext) returns (r: Option<string>)
    ensures aggregateHex == Serialized(from) && Reduced(from) && 1 <= |from.a| == |s| < FHE_PRIME ==>
              r == Some(Hex32(Plain(from, s)))
  {
    hide Serialized, Hex32;
    var ct := Deserialize(aggregateHex, from);
    if ct.None? { return None; }
    var m := Decrypt(ct.value, s);
    if m.None? { return None; }
    return Some(Hex32(m.value));
  }

  /** The polynomial loop of createThresholdSharesFHE: Horner evaluation at x. */
  method EvaluateHorner(coeffs: seq<nat>, x: nat) returns (y: nat)
    ensures y == Eval(coeffs, x) % FHE_PRIME
  {
    y := 0;
    var c := |coeffs|;
    assert coeffs[c..] == [];
    RemainderUnique(0, FHE_PRIME, 0, 0);
    while c > 0
      invariant 0 <= c <= |coeffs|
      invariant y == Eval(coeffs[c..], x) % FHE_PRIME
    {
      c := c - 1;
      assert coeffs[c..][1..] == coeffs[c + 1..];
      HornerStep(Eval(coeffs[c + 1..], x), x, coeffs[c], FHE_PRIME);
      y := (y * x + coeffs[c]) % FHE_PRIME;
    }
    assert coeffs[0..] == coeffs;
  }

  lemma HornerStep(e: int, x: int, c: int, q: int)
    requires q > 0
    ensures ((e % q) * x + c) % q == (c + x * e) % q
  {
    CongMod(e, q);
    CongMul(e % q, e, x, x, q);
    CongAdd((e % q) * x, e * x, c, c, q);
  }

  function ShareCoefficients(secret: nat, draws: seq<nat>, k: nat): (cs: seq<nat>)
    requires 1 <= k <= |draws| + 1
    ensures |cs| == k && cs[0] == secret % FHE_PRIME
    ensures forall i :: 1 <= i < k ==> cs[i] == draws[i - 1] % FHE_PRIME
  {
    if k == 1 then [secret % FHE_PRIME] else ShareCoefficients(secret, draws, k - 1) + [draws[k - 2] % FHE_PRIME]
  }

  // One share's value, encrypted under the key whose private part is s.
  method EncryptShare(share: nat, pk: PublicKey, draws: seq<nat>, ghost s: seq<nat>) returns (ct: Ciphertext)
    requires pk.a != [] && IsKeypair(pk, s) && |draws| == |pk.a|
    ensures Reduced(ct) && |ct.a| == |s| && Plain(ct, s) == share % FHE_PRIME
    ensures IsEncryption(ct, share, pk, SmallVector(draws), |s|)
  {
    var c := Encrypt(share, pk, draws);
    DecryptEncrypt(c.value, share, pk, SmallVector(draws), s);
    return c.value;
  }

  /** createThresholdSharesFHE: share j of n encrypts the polynomial's value at j. draws are the
      coefficients' random numbers, encDraws[j - 1] the randomness of encryption j. */
  method CreateThresholdShares(secretHex: string, n: nat, threshold: int, pk: PublicKey, draws: seq<nat>, encDraws: seq<seq<nat>>,
                               ghost s: seq<nat>)
    returns (r: Option<seq<HexShare>>, ghost shares: seq<EncryptedShare>)
    requires threshold <= |draws| + 1 && |encDraws| >= n
    requires pk.a != [] && IsKeypair(pk, s) && forall j :: 0 <= j < n ==> |encDraws[j]| == |pk.a|
    ensures r.None? <==> threshold < 1 || threshold > n || Parse(CleanHex(secretHex), 16).None?
    ensures r.Some? ==>
              && (1 <= |s| < FHE_PRIME ==> Carries(r.value, shares, |s|))
              && |r.value| == |shares| == n
              && AreSharesOf(shares, ShareCoefficients(Parse(CleanHex(secretHex), 16).value, draws, threshold), s)
              && (forall j :: 0 <= j < n ==> shares[j].index == j + 1)
              && var coeffs := ShareCoefficients(Parse(CleanHex(secretHex), 16).value, draws, threshold);
                 forall j :: 0 <= j < n ==>
                   IsEncryption(shares[j].ciphertext, Eval(coeffs, j + 1) % FHE_PRIME, pk, SmallVector(encDraws[j]), |s|)
  {
    hide Parse, Serialized, Plain, IsEncryption, SmallVector, IsKeypair, Reduced;
    if threshold < 1 || threshold > n { return None, []; }
    var secret := Parse(CleanHex(secretHex), 16);
    if secret.None? { return None, []; }
    var coeffs: seq<nat> := [secret.value % FHE_PRIME];
    for i := 1 to threshold
      invariant coeffs == ShareCoefficients(secret.value, draws, i)
    {
      coeffs := coeffs + [draws[i - 1] % FHE_PRIME];
    }
    var out: seq<HexShare> := [];
    ghost var made: seq<EncryptedShare> := [];
    for j := 1 to n + 1
      invariant |out| == |made| == j - 1
      invariant forall i :: 0 <= i < |made| ==>
        && out[i] == HexShare(i + 1, Serialized(made[i].ciphertext)) && made[i].index == i + 1
        && Reduced(made[i].ciphertext) && |made[i].ciphertext.a| == |s|
        && Plain(made[i].ciphertext, s) == Eval(coeffs, i + 1) % FHE_PRIME
        && IsEncryption(made[i].ciphertext, Eval(coeffs, i + 1) % FHE_PRIME, pk, SmallVector(encDraws[i]), |s|)
    {
      var y := EvaluateHorner(coeffs, j);
      var ct := EncryptShare(y, pk, encDraws[j - 1], s);
      RemainderUnique(y, FHE_PRIME, 0, y);
      var hex := Serialize(ct);
      out := out + [HexShare(j, hex)];
      made := made + [EncryptedShare(j, ct)];
    }
    return Some(out), made;
  }

  // Any selection of different shares out of those created, in any order.
  ghost predicate IsChoice(chosen: seq<EncryptedShare>, n: nat) {
    && (forall i :: 0 <= i < |chosen| ==> 1 <= chosen[i].index <= n)
    && forall i, j :: 0 <= i < j < |chosen| ==> chosen[i].index != chosen[j].index
  }

  lemma ChoiceDistinct(chosen: seq<EncryptedShare>, n: nat)
    requires IsChoice(chosen, n) && n < FHE_PRIME
    ensures Distinct(ReducePoints(Indices(chosen)), FHE_PRIME)
  {
    var ps := ReducePoints(Indices(chosen));
    forall i, j | 0 <= i < j < |ps|
      ensures !Cong(ps[i], ps[j], FHE_PRIME)
    {
      RemainderUnique(chosen[i].index, FHE_PRIME, 0, chosen[i].index);
      RemainderUnique(chosen[j].index, FHE_PRIME, 0, chosen[j].index);
    }
  }

  // The aggregate of the first |coeffs| of the chosen shares decrypts to the secret.
  ghost predicate AggregateDecrypts(active: seq<EncryptedShare>, lambdas: seq<nat>, s: seq<nat>, secret: nat) {
    && 1 <= |active| == |lambdas| && SameDimension(Ciphertexts(active), |s|)
    && Plain(Combine(lambdas, Ciphertexts(active), |active|, |s|), s) == secret % FHE_PRIME
  }

  lemma SharesDimension(shares: seq<EncryptedShare>, coeffs: seq<nat>, s: seq<nat>)
    requires AreSharesOf(shares, coeffs, s)
    ensures SameDimension(Ciphertexts(shares), |s|)
  {}

  lemma AggregateOf(active: seq<EncryptedShare>, coeffs: seq<nat>, lambdas: seq<nat>, secret: nat, n: nat, s: seq<nat>)
    requires IsPrime(FHE_PRIME) && n < FHE_PRIME && IsChoice(active, n)
    requires 1 <= |coeffs| == |active| && coeffs[0] == secret % FHE_PRIME && AreSharesOf(active, coeffs, s)
    requires LagrangeWeights(ReducePoints(Indices(active)), lambdas, FHE_PRIME)
    ensures AggregateDecrypts(active, lambdas, s, secret)
  {
    SharesDimension(active, coeffs, s);
    ChoiceDistinct(active, n);
    hide ReducePoints, Indices, Ciphertexts, Plain, AreSharesOf, IsChoice, Combine;
    ThresholdReconstruction(active, coeffs, lambdas, s);
    RemainderUnique(coeffs[0], FHE_PRIME, 0, coeffs[0]);
  }

  /** End to end: whatever the keys, the encryption randomness and the choice of at least
      threshold different shares, aggregation succeeds and the aggregate decrypts to the
      secret modulo q. */
  lemma AggregateRecovers(chosen: seq<EncryptedShare>, coeffs: seq<nat>, secret: nat, n: nat, s: seq<nat>)
    requires IsPrime(FHE_PRIME) && n < FHE_PRIME && IsChoice(chosen, n)
    requires 1 <= |coeffs| <= |chosen| && coeffs[0] == secret % FHE_PRIME && AreSharesOf(chosen, coeffs, s)
    ensures CanAggregate(chosen, |coeffs|)
    ensures forall lambdas: seq<nat> :: LagrangeWeights(ReducePoints(Indices(chosen[..|coeffs|])), lambdas, FHE_PRIME) ==>
              AggregateDecrypts(chosen[..|coeffs|], lambdas, s, secret)
  {
    hide ReducePoints, Indices, LagrangeWeights, AggregateDecrypts;
    var active := chosen[..|coeffs|];
    ChoiceDistinct(active, n);
    forall lambdas: seq<nat> | LagrangeWeights(ReducePoints(Indices(active)), lambdas, FHE_PRIME)
      ensures AggregateDecrypts(active, lambdas, s, secret)
    {
      AggregateOf(active, coeffs, lambdas, secret, n, s);
    }
  }
}

/** The additively homomorphic LWE scheme of fheEngine.ts: keys, encryption, decryption, addition, scaling. */
module Fhe {
  import opened Numbers
  import opened Polynomials
  import opened Text

  // 2^256 - 2^32 - 977
  const FHE_PRIME: nat := 0xFFFFFFFF_FFFFFFFF_FFFFFFFF_FFFFFFFF_FFFFFFFF_FFFFFFFF_FFFFFFFE_FFFFFC2F

  datatype PublicKey = PublicKey(a: seq<seq<nat>>, b: seq<nat>)
  datatype Keypair = Keypair(publicKey: PublicKey, s: seq<nat>)
  datatype Ciphertext = Ciphertext(a: seq<nat>, b: nat)

  predicate AllBelow(u: seq<nat>, q: int) {
    forall i :: 0 <= i < |u| ==> u[i] < q
  }

  predicate Reduced(ct: Ciphertext) {
    AllBelow(ct.a, FHE_PRIME) && ct.b < FHE_PRIME
  }

  // What the private key s makes of a ciphertext: b minus the dot product of a and s.
  function Plain(ct: Ciphertext, s: seq<nat>): nat
    requires |ct.a| == |s|
  {
    (ct.b - WeightedSum(ct.a, s, |s|)) % FHE_PRIME
  }

  // Row i of the public key hides nothing: b[i] is exactly the dot product of a[i] and s.
  ghost predicate IsKeypair(pk: PublicKey, s: seq<nat>) {
    && |pk.a| == |pk.b|
    && forall i :: 0 <= i < |pk.a| ==> |pk.a[i]| == |s| && Cong(pk.b[i], WeightedSum(pk.a[i], s, |s|), FHE_PRIME)
  }

  /** fheKeyGen with the random field elements as arguments. */
  method KeyGen(n: nat, m: nat, randomS: seq<nat>, randomA: seq<seq<nat>>) returns (k: Keypair)
    requires |randomS| == n && |randomA| == m && forall i :: 0 <= i < m ==> |randomA[i]| == n
    ensures k.s == randomS && k.publicKey.a == randomA && IsKeypair(k.publicKey, k.s)
  {
    var a: seq<seq<nat>> := [];
    var b: seq<nat> := [];
    for i := 0 to m
      invariant a == randomA[..i] && |b| == i
      invariant forall t :: 0 <= t < i ==> Cong(b[t], WeightedSum(randomA[t], randomS, n), FHE_PRIME)
    {
      var row: seq<nat> := [];
      var dot: nat := 0;
      for j := 0 to n
        invariant row == randomA[i][..j]
        invariant Cong(dot, WeightedSum(randomA[i], randomS, j), FHE_PRIME)
      {
        row := row + [randomA[i][j]];
        SumStep(dot, WeightedSum(randomA[i], randomS, j), randomA[i][j] * randomS[j], FHE_PRIME);
        dot := (dot + randomA[i][j] * randomS[j]) % FHE_PRIME;
      }
      assert row == randomA[i];
      a := a + [row];
      b := b + [dot];
    }
    assert a == randomA;
    return Keypair(PublicKey(a, b), randomS);
  }

  // A running sum reduced at every step stays congruent to the sum.
  lemma SumStep(acc: int, sum: int, term: int, q: int)
    requires q > 0 && Cong(acc, sum, q)
    ensures Cong((acc + term) % q, sum + term, q)
  {
    CongAdd(acc, sum, term, term, q);
    CongMod(acc + term, q);
  }

  // ----- encryption and decryption -----

  // The sum of a[t][j] * r[t] over t < i.
  function ColumnSum(a: seq<seq<nat>>, r: seq<nat>, j: nat, i: nat): nat
    requires i <= |a| && i <= |r| && forall t :: 0 <= t < |a| ==> j < |a[t]|
  {
    if i == 0 then 0 else ColumnSum(a, r, j, i - 1) + a[i - 1][j] * r[i - 1]
  }

  // ct is the encryption of m under pk with the small random vector r.
  ghost predicate IsEncryption(ct: Ciphertext, m: nat, pk: PublicKey, r: seq<nat>, n: nat) {
    && |pk.a| == |pk.b| == |r| && |ct.a| == n
    && (forall t :: 0 <= t < |pk.a| ==> |pk.a[t]| == n)
    && (forall j :: 0 <= j < n ==> Cong(ct.a[j], ColumnSum(pk.a, r, j, |r|), FHE_PRIME))
    && Cong(ct.b, m + WeightedSum(pk.b, r, |r|), FHE_PRIME)
  }

  predicate IsMatrix(a: seq<seq<nat>>, n: nat) {
    forall t :: 0 <= t < |a| ==> |a[t]| == n
  }

  // The masking vector: every entry between 1 and 7, each from its own random field element.
  function SmallVector(draws: seq<nat>): (r: seq<nat>)
    ensures |r| == |draws| && forall i :: 0 <= i < |r| ==> r[i] == draws[i] % 7 + 1 && 1 <= r[i] <= 7
  {
    seq(|draws|, i requires 0 <= i < |draws| => draws[i] % 7 + 1)
  }

  /** fheEncrypt; draws[i] is the random field element behind r[i]. A key without rows throws. */
  method Encrypt(plaintext: nat, pk: PublicKey, draws: seq<nat>) returns (ct: Option<Ciphertext>)
    requires |pk.a| == |pk.b| == |draws|
    requires pk.a != [] ==> IsMatrix(pk.a, |pk.a[0]|)
    ensures ct.None? <==> pk.a == []
    ensures ct.Some? ==> IsEncryption(ct.value, plaintext, pk, SmallVector(draws), |pk.a[0]|) && Reduced(ct.value)
  {
    var m := |pk.a|;
    if m == 0 { return None; }
    var mVal := plaintext % FHE_PRIME;
    CongMod(plaintext, FHE_PRIME);
    var n := |pk.a[0]|;
    var rv: seq<nat> := [];
    for i := 0 to m
      invariant |rv| == i && forall t :: 0 <= t < i ==> rv[t] == draws[t] % 7 + 1
    {
      rv := rv + [draws[i] % 7 + 1];
    }
    assert rv == SmallVector(draws);
    hide Cong, ColumnSum;
    var aOut := EncryptColumns(pk.a, rv, n);
    var v := EncryptScalar(mVal, pk.b, rv);
    CongAdd(mVal, plaintext, WeightedSum(pk.b, rv, m), WeightedSum(pk.b, rv, m), FHE_PRIME);
    return Some(Ciphertext(aOut, v));
  }

  /** The column loop of fheEncrypt. */
  method EncryptColumns(a: seq<seq<nat>>, r: seq<nat>, n: nat) returns (aOut: seq<nat>)
    requires |a| == |r| && IsMatrix(a, n)
    ensures |aOut| == n && AllBelow(aOut, FHE_PRIME)
    ensures forall t :: 0 <= t < n ==> Cong(aOut[t], ColumnSum(a, r, t, |r|), FHE_PRIME)
  {
    hide Cong, ColumnSum;
    aOut := [];
    for j := 0 to n
      invariant |aOut| == j && AllBelow(aOut, FHE_PRIME)
      invariant forall t :: 0 <= t < j ==> Cong(aOut[t], ColumnSum(a, r, t, |r|), FHE_PRIME)
    {
      var sumCol := EncryptColumn(a, r, j);
      aOut := aOut + [sumCol];
    }
  }

  /** The last loop of fheEncrypt. */
  method EncryptScalar(mVal: nat, b: seq<nat>, r: seq<nat>) returns (v: nat)
    requires mVal < FHE_PRIME && |b| == |r|
    ensures v < FHE_PRIME && Cong(v, mVal + WeightedSum(b, r, |r|), FHE_PRIME)
  {
    v := mVal;
    for i := 0 to |b|
      invariant v < FHE_PRIME && Cong(v, mVal + WeightedSum(b, r, i), FHE_PRIME)
    {
      SumStep(v, mVal + WeightedSum(b, r, i), b[i] * r[i], FHE_PRIME);
      v := (v + b[i] * r[i]) % FHE_PRIME;
    }
  }

  /** The inner loop of fheEncrypt for one column. */
  method EncryptColumn(a: seq<seq<nat>>, r: seq<nat>, j: nat) returns (sumCol: nat)
    requires |a| == |r| && forall t :: 0 <= t < |a| ==> j < |a[t]|
    ensures sumCol < FHE_PRIME && Cong(sumCol, ColumnSum(a, r, j, |r|), FHE_PRIME)
  {
    sumCol := 0;
    for i := 0 to |a|
      invariant sumCol < FHE_PRIME && Cong(sumCol, ColumnSum(a, r, j, i), FHE_PRIME)
    {
      SumStep(sumCol, ColumnSum(a, r, j, i), a[i][j] * r[i], FHE_PRIME);
      sumCol := (sumCol + a[i][j] * r[i]) % FHE_PRIME;
    }
  }

  /** fheDecrypt. */
  method Decrypt(ct: Ciphertext, s: seq<nat>) returns (m: Option<nat>)
    ensures m == if |ct.a| != |s| then None else Some(Plain(ct, s))
  {
    if |ct.a| != |s| { return None; }
    var dot: nat := 0;
    for i := 0 to |s|
      invariant Cong(dot, WeightedSum(ct.a, s, i), FHE_PRIME)
    {
      SumStep(dot, WeightedSum(ct.a, s, i), ct.a[i] * s[i], FHE_PRIME);
      dot := (dot + ct.a[i] * s[i]) % FHE_PRIME;
    }
    CongSub(ct.b, ct.b, dot, WeightedSum(ct.a, s, |s|), FHE_PRIME);
    return Some((ct.b - dot) % FHE_PRIME);
  }

  // The dot product of the column sums with s, over the first n columns.
  function ColumnDot(a: seq<seq<nat>>, r: seq<nat>, s: seq<nat>, i: nat, n: nat): int
    requires IsMatrix(a, |s|) && i <= |a| && i <= |r| && n <= |s|
  {
    if n == 0 then 0 else ColumnDot(a, r, s, i, n - 1) + ColumnSum(a, r, n - 1, i) * s[n - 1]
  }

  lemma {:induction false} ColumnDotZero(a: seq<seq<nat>>, r: seq<nat>, s: seq<nat>, n: nat)
    requires IsMatrix(a, |s|) && n <= |s|
    ensures ColumnDot(a, r, s, 0, n) == 0
  {
    if n != 0 { ColumnDotZero(a, r, s, n - 1); }
  }

  // Interchanging the two sums, one row at a time.
  lemma {:induction false} ColumnDotStep(a: seq<seq<nat>>, r: seq<nat>, s: seq<nat>, i: nat, n: nat)
    requires IsMatrix(a, |s|) && 0 < i <= |a| && i <= |r| && n <= |s|
    ensures ColumnDot(a, r, s, i, n) == ColumnDot(a, r, s, i - 1, n) + WeightedSum(a[i - 1], s, n) * r[i - 1]
  {
    if n != 0 {
      ColumnDotStep(a, r, s, i, n - 1);
      InterchangeAlgebra(ColumnSum(a, r, n - 1, i - 1), a[i - 1][n - 1], r[i - 1], s[n - 1], WeightedSum(a[i - 1], s, n - 1));
    }
  }

  lemma InterchangeAlgebra(c: int, x: int, r: int, s: int, w: int)
    ensures w * r + (c + x * r) * s == c * s + (w + x * s) * r
  {
    assert (c + x * r) * s == c * s + (x * r) * s;
    assert (w + x * s) * r == w * r + (x * s) * r;
    assert (x * r) * s == (x * s) * r;
  }

  lemma {:induction false} ColumnDotIsKeySum(pk: PublicKey, r: seq<nat>, s: seq<nat>, i: nat)
    requires IsKeypair(pk, s) && |r| == |pk.a| && i <= |r|
    ensures Cong(ColumnDot(pk.a, r, s, i, |s|), WeightedSum(pk.b, r, i), FHE_PRIME)
  {
    if i == 0 {
      ColumnDotZero(pk.a, r, s, |s|);
    } else {
      ColumnDotIsKeySum(pk, r, s, i - 1);
      ColumnDotStep(pk.a, r, s, i, |s|);
      var w := WeightedSum(pk.a[i - 1], s, |s|);
      CongMul(w, pk.b[i - 1], r[i - 1], r[i - 1], FHE_PRIME);
      CongAdd(ColumnDot(pk.a, r, s, i - 1, |s|), WeightedSum(pk.b, r, i - 1), w * r[i - 1], pk.b[i - 1] * r[i - 1], FHE_PRIME);
    }
  }

  lemma {:induction false} CipherDot(ctA: seq<nat>, a: seq<seq<nat>>, r: seq<nat>, s: seq<nat>, n: nat)
    requires IsMatrix(a, |s|) && |r| == |a| && n <= |s| == |ctA|
    requires forall j :: 0 <= j < |s| ==> Cong(ctA[j], ColumnSum(a, r, j, |r|), FHE_PRIME)
    ensures Cong(WeightedSum(ctA, s, n), ColumnDot(a, r, s, |r|, n), FHE_PRIME)
  {
    if n != 0 {
      CipherDot(ctA, a, r, s, n - 1);
      var c := ColumnSum(a, r, n - 1, |r|);
      CongMul(ctA[n - 1], c, s[n - 1], s[n - 1], FHE_PRIME);
      CongAdd(WeightedSum(ctA, s, n - 1), ColumnDot(a, r, s, |r|, n - 1), ctA[n - 1] * s[n - 1], c * s[n - 1], FHE_PRIME);
    }
  }

  /** Decryption inverts encryption for every key pair and every randomness. */
  lemma DecryptEncrypt(ct: Ciphertext, m: nat, pk: PublicKey, r: seq<nat>, s: seq<nat>)
    requires IsKeypair(pk, s) && IsEncryption(ct, m, pk, r, |s|)
    ensures Plain(ct, s) == m % FHE_PRIME
  {
    CipherDot(ct.a, pk.a, r, s, |s|);
    ColumnDotIsKeySum(pk, r, s, |r|);
    CongSub(ct.b, m + WeightedSum(pk.b, r, |r|), WeightedSum(ct.a, s, |s|), WeightedSum(pk.b, r, |r|), FHE_PRIME);
  }

  // ----- homomorphic operations -----

  function AddVec(u: seq<nat>, v: seq<nat>): (w: seq<nat>)
    requires |u| == |v|
    ensures |w| == |u| && forall i :: 0 <= i < |u| ==> w[i] == (u[i] + v[i]) % FHE_PRIME
  {
    if u == [] then [] else
      var n := |u| - 1;
      AddVec(u[..n], v[..n]) + [(u[n] + v[n]) % FHE_PRIME]
  }

  function AddCiphertexts(c: Ciphertext, d: Ciphertext): (e: Ciphertext)
    requires |c.a| == |d.a|
    ensures |e.a| == |c.a| && Reduced(e)
  {
    Ciphertext(AddVec(c.a, d.a), (c.b + d.b) % FHE_PRIME)
  }

  /** fheAdd. */
  method FheAdd(ct1: Ciphertext, ct2: Ciphertext) returns (r: Option<Ciphertext>)
    ensures r == if |ct1.a| != |ct2.a| then None else Some(AddCiphertexts(ct1, ct2))
  {
    if |ct1.a| != |ct2.a| { return None; }
    var aOut: seq<nat> := [];
    for i := 0 to |ct1.a|
      invariant |aOut| == i && forall j :: 0 <= j < i ==> aOut[j] == AddVec(ct1.a, ct2.a)[j]
    {
      aOut := aOut + [(ct1.a[i] + ct2.a[i]) % FHE_PRIME];
    }
    assert aOut == AddVec(ct1.a, ct2.a);
    return Some(Ciphertext(aOut, (ct1.b + ct2.b) % FHE_PRIME));
  }

  function ScaleVec(c: nat, u: seq<nat>): (w: seq<nat>)
    ensures |w| == |u| && forall i :: 0 <= i < |u| ==> w[i] == (u[i] * c) % FHE_PRIME
  {
    if u == [] then [] else
      var n := |u| - 1;
      ScaleVec(c, u[..n]) + [(u[n] * c) % FHE_PRIME]
  }

  function ScaleCiphertext(c: nat, ct: Ciphertext): (e: Ciphertext)
    ensures |e.a| == |ct.a| && Reduced(e)
  {
    Ciphertext(ScaleVec(c, ct.a), (ct.b * c) % FHE_PRIME)
  }

  /** fheScalarMul. */
  method FheScalarMul(scalar: int, ct: Ciphertext) returns (r: Ciphertext)
    ensures r == ScaleCiphertext(scalar % FHE_PRIME, ct)
  {
    var s: nat := scalar % FHE_PRIME;
    var aOut: seq<nat> := [];
    for i := 0 to |ct.a|
      invariant |aOut| == i && forall j :: 0 <= j < i ==> aOut[j] == ScaleVec(s, ct.a)[j]
    {
      aOut := aOut + [(ct.a[i] * s) % FHE_PRIME];
    }
    assert aOut == ScaleVec(s, ct.a);
    return Ciphertext(aOut, (ct.b * s) % FHE_PRIME);
  }

  lemma {:induction false} DotOfSum(u: seq<nat>, v: seq<nat>, w: seq<nat>, s: seq<nat>, n: nat)
    requires |u| == |v| == |w| == |s| && n <= |s|
    requires forall i :: 0 <= i < |w| ==> w[i] == (u[i] + v[i]) % FHE_PRIME
    ensures Cong(WeightedSum(w, s, n), WeightedSum(u, s, n) + WeightedSum(v, s, n), FHE_PRIME)
  {
    if n != 0 {
      var i := n - 1;
      DotOfSum(u, v, w, s, i);
      DotOfSumStep(WeightedSum(w, s, i), WeightedSum(u, s, i), WeightedSum(v, s, i), u[i], v[i], s[i], FHE_PRIME);
    }
  }

  lemma DotOfSumStep(w: int, x: int, y: int, u: int, v: int, s: int, q: int)
    requires q > 0 && Cong(w, x + y, q)
    ensures Cong(w + ((u + v) % q) * s, (x + u * s) + (y + v * s), q)
  {
    CongMod(u + v, q);
    CongMul((u + v) % q, u + v, s, s, q);
    assert (u + v) * s == u * s + v * s;
    CongAdd(w, x + y, ((u + v) % q) * s, (u + v) * s, q);
  }

  /** Adding ciphertexts adds plaintexts. */
  lemma PlainOfSum(c: Ciphertext, d: Ciphertext, s: seq<nat>)
    requires |c.a| == |d.a| == |s|
    ensures Plain(AddCiphertexts(c, d), s) == (Plain(c, s) + Plain(d, s)) % FHE_PRIME
  {
    var x, y := WeightedSum(c.a, s, |s|), WeightedSum(d.a, s, |s|);
    DotOfSum(c.a, d.a, AddVec(c.a, d.a), s, |s|);
    CongMod(c.b + d.b, FHE_PRIME);
    CongSub((c.b + d.b) % FHE_PRIME, c.b + d.b, WeightedSum(AddVec(c.a, d.a), s, |s|), x + y, FHE_PRIME);
    ModAddBoth(c.b - x, d.b - y, FHE_PRIME);
  }

  lemma {:induction false} DotOfScaled(c: nat, u: seq<nat>, w: seq<nat>, s: seq<nat>, n: nat)
    requires |u| == |w| == |s| && n <= |s|
    requires forall i :: 0 <= i < |w| ==> w[i] == (u[i] * c) % FHE_PRIME
    ensures Cong(WeightedSum(w, s, n), c * WeightedSum(u, s, n), FHE_PRIME)
  {
    if n != 0 {
      var i := n - 1;
      DotOfScaled(c, u, w, s, i);
      DotOfScaledStep(WeightedSum(w, s, i), WeightedSum(u, s, i), c, u[i], s[i], FHE_PRIME);
    }
  }

  lemma DotOfScaledStep(w: int, x: int, c: int, u: int, s: int, q: int)
    requires q > 0 && Cong(w, c * x, q)
    ensures Cong(w + ((u * c) % q) * s, c * (x + u * s), q)
  {
    CongMod(u * c, q);
    CongMul((u * c) % q, u * c, s, s, q);
    CongAdd(w, c * x, ((u * c) % q) * s, (u * c) * s, q);
    assert (u * c) * s == c * (u * s);
  }

  /** Scaling a ciphertext scales the plaintext. */
  lemma PlainOfScaled(c: nat, ct: Ciphertext, s: seq<nat>)
    requires |ct.a| == |s|
    ensures Plain(ScaleCiphertext(c, ct), s) == (Plain(ct, s) * c) % FHE_PRIME
  {
    var x := WeightedSum(ct.a, s, |s|);
    DotOfScaled(c, ct.a, ScaleVec(c, ct.a), s, |s|);
    CongMod(ct.b * c, FHE_PRIME);
    CongSub((ct.b * c) % FHE_PRIME, ct.b * c, WeightedSum(ScaleVec(c, ct.a), s, |s|), c * x, FHE_PRIME);
    assert ct.b * c - c * x == (ct.b - x) * c;
    ModMulLeft(ct.b - x, c, FHE_PRIME);
  }
}

/** Lagrange and additive aggregation of encrypted shares in fheEngine.ts. */
module FheShares {
  import opened Numbers
  import opened Polynomials
  import opened Radix
  import opened Text
  import opened Fhe

  // ----- Lagrange coefficients -----

  function ReducePoints(indices: seq<nat>): (ps: seq<nat>)
    ensures |ps| == |indices| && forall i :: 0 <= i < |ps| ==> ps[i] == indices[i] % FHE_PRIME
  {
    if indices == [] then [] else
      var n := |indices| - 1;
      ReducePoints(indices[..n]) + [indices[n] % FHE_PRIME]
  }

  /** computeLagrangeCoefficients; equal points make a zero denominator, which throws. */
  method LagrangeCoefficients(indices: seq<nat>) returns (r: Option<seq<nat>>)
    requires IsPrime(FHE_PRIME)
    ensures r.Some? <==> Distinct(ReducePoints(indices), FHE_PRIME)
    ensures r.Some? ==> LagrangeWeights(ReducePoints(indices), r.value, FHE_PRIME) && AllBelow(r.value, FHE_PRIME)
    ensures r.Some? ==> |r.value| == |indices|
  {
    hide ApartFrom, IsWeight, IsPrime;
    var points := ReducePoints(indices);
    var lambdas: seq<nat> := [];
    for i := 0 to |points|
      invariant |lambdas| == i && AllBelow(lambdas, FHE_PRIME)
      invariant forall m :: 0 <= m < i ==> IsWeight(points, m, lambdas[m], FHE_PRIME)
      invariant forall m :: 0 <= m < i ==> ApartFrom(points, m, |points|)
    {
      var lambda := LagrangeCoefficient(points, i);
      if lambda.None? {
        Collision(points, i);
        return None;
      }
      lambdas := lambdas + [lambda.value];
    }
    AllApart(points);
    return Some(lambdas);
  }

  lemma Collision(points: seq<nat>, i: nat)
    requires i < |points| && !ApartFrom(points, i, |points|)
    ensures !Distinct(points, FHE_PRIME)
  {
    var m :| 0 <= m < |points| && m != i && Agree(points[i], points[m], FHE_PRIME);
    AgreeIsCong(points[i], points[m], FHE_PRIME);
    CongSymmetric(points[i], points[m], FHE_PRIME);
    hide Cong;
    if m < i { assert Cong(points[m], points[i], FHE_PRIME); } else { assert Cong(points[i], points[m], FHE_PRIME); }
  }

  lemma AllApart(points: seq<nat>)
    requires forall m :: 0 <= m < |points| ==> ApartFrom(points, m, |points|)
    ensures Distinct(points, FHE_PRIME)
  {
    hide Cong;
    forall i, j | 0 <= i < j < |points| ensures !Cong(points[i], points[j], FHE_PRIME) {
      assert ApartFrom(points, i, |points|);
      AgreeIsCong(points[i], points[j], FHE_PRIME);
    }
  }

  // Point i is at a distance from the first j others.
  ghost predicate ApartFrom(points: seq<nat>, i: nat, j: nat)
    requires i < |points| && j <= |points|
  {
    forall m :: 0 <= m < j && m != i ==> !Agree(points[i], points[m], FHE_PRIME)
  }

  // Numerator and denominator of weight i after the first j points.
  ghost predicate Fraction(points: seq<nat>, i: nat, j: nat, num: nat, den: nat)
    requires i < |points| && j <= |points|
  {
    && Agree(num, ProductSkip(points, i, j, 0), FHE_PRIME)
    && Agree(den, ProductSkip(points, i, j, points[i]), FHE_PRIME)
    && (Residue(den, FHE_PRIME) != 0 <==> ApartFrom(points, i, j))
  }

  /** The body of its outer loop: numerator and denominator, then one inverse. */
  method LagrangeCoefficient(points: seq<nat>, i: nat) returns (r: Option<nat>)
    requires IsPrime(FHE_PRIME) && i < |points|
    ensures r.Some? <==> ApartFrom(points, i, |points|)
    ensures r.Some? ==> IsWeight(points, i, r.value, FHE_PRIME) && r.value < FHE_PRIME
  {
    hide IsPrime, Fraction, ApartFrom, IsWeight;
    var num: nat, den: nat := 1, 1;
    EmptyFraction(points, i);
    for j := 0 to |points|
      invariant Fraction(points, i, j, num, den)
    {
      num, den := NextPoint(points, i, j, num, den);
    }
    r := DivideFraction(points, i, num, den);
  }

  lemma EmptyFraction(points: seq<nat>, i: nat)
    requires i < |points|
    ensures Fraction(points, i, 0, 1, 1)
  {
    ResidueIs(1, FHE_PRIME);
    RemainderUnique(1, FHE_PRIME, 0, 1);
  }

  /** One turn of the inner loop. */
  method NextPoint(points: seq<nat>, i: nat, j: nat, num: nat, den: nat) returns (num': nat, den': nat)
    requires IsPrime(FHE_PRIME) && i < |points| && j < |points| && Fraction(points, i, j, num, den)
    ensures Fraction(points, i, j + 1, num', den')
  {
    if i == j {
      return num, den;
    }
    var xi: int, xj: int := points[i], points[j];
    hide Agree, Cong, IsPrime, ProductSkip;
    FractionStep(num, ProductSkip(points, i, j, 0), xj - 0, FHE_PRIME);
    FractionStep(den, ProductSkip(points, i, j, xi), xj - xi, FHE_PRIME);
    DenominatorStep(den, xj, xi, FHE_PRIME);
    num', den' := (num * xj) % FHE_PRIME, (den * (xj - xi)) % FHE_PRIME;
    ResidueIs(den, FHE_PRIME);
    ResidueIs(den', FHE_PRIME);
    AgreeIsCong(xi, xj, FHE_PRIME);
    NextApart(points, i, j);
    NextProducts(points, i, j);
  }

  lemma NextApart(points: seq<nat>, i: nat, j: nat)
    requires i < |points| && j < |points| && i != j
    ensures ApartFrom(points, i, j + 1) <==> ApartFrom(points, i, j) && !Agree(points[i], points[j], FHE_PRIME)
  {
    hide Agree;
  }

  lemma NextProducts(points: seq<nat>, i: nat, j: nat)
    requires i < |points| && j < |points| && i != j
    ensures var xi: int, xj: int := points[i], points[j];
            && ProductSkip(points, i, j + 1, 0) == ProductSkip(points, i, j, 0) * (xj - 0)
            && ProductSkip(points, i, j + 1, xi) == ProductSkip(points, i, j, xi) * (xj - xi)
  {}

  lemma FractionStep(acc: int, prod: int, factor: int, q: int)
    requires q > 0 && Agree(acc, prod, q)
    ensures Agree((acc * factor) % q, prod * factor, q)
  {
    hide Agree;
    AgreeIsCong(acc, prod, q);
    ProductStep(acc, prod, factor, q);
    AgreeIsCong((acc * factor) % q, prod * factor, q);
  }

  /** The inverse and the quotient; the inverse of zero throws. */
  method DivideFraction(points: seq<nat>, i: nat, num: nat, den: nat) returns (r: Option<nat>)
    requires IsPrime(FHE_PRIME) && i < |points| && Fraction(points, i, |points|, num, den)
    ensures r.Some? <==> ApartFrom(points, i, |points|)
    ensures r.Some? ==> IsWeight(points, i, r.value, FHE_PRIME) && r.value < FHE_PRIME
  {
    ResidueIs(den, FHE_PRIME);
    if den % FHE_PRIME == 0 { return None; }
    AgreeIsCong(num, ProductSkip(points, i, |points|, 0), FHE_PRIME);
    AgreeIsCong(den, ProductSkip(points, i, |points|, points[i]), FHE_PRIME);
    hide Agree;
    var denInv := PowMod(den % FHE_PRIME, FHE_PRIME - 2, FHE_PRIME);
    QuotientIsWeight(num, den, ProductSkip(points, i, |points|, 0), ProductSkip(points, i, |points|, points[i]), FHE_PRIME);
    SolvesIs((num * denInv) % FHE_PRIME, ProductSkip(points, i, |points|, points[i]), ProductSkip(points, i, |points|, 0), FHE_PRIME);
    hide IsPrime, Cong, ProductSkip, ApartFrom, Pow;
    return Some((num * denInv) % FHE_PRIME);
  }

  lemma ProductStep(acc: int, prod: int, factor: int, q: int)
    requires q > 0 && Cong(acc, prod, q)
    ensures Cong((acc * factor) % q, prod * factor, q)
  {
    CongMul(acc, prod, factor, factor, q);
    CongMod(acc * factor, q);
  }

  // The denominator vanishes as soon as one distance does.
  lemma DenominatorStep(den: int, x: int, y: int, q: int)
    requires IsPrime(q)
    ensures ((den * (x - y)) % q) % q != 0 <==> den % q != 0 && !Cong(y, x, q)
  {
    CongMod(den * (x - y), q);
    CongZeroSub(x, y, q);
    if (den * (x - y)) % q == 0 { EuclidLemma(den, x - y, q); }
    if den % q == 0 { CongMul(den, 0, x - y, x - y, q); RemainderUnique(0, q, 0, 0); }
    if (x - y) % q == 0 { CongMul(den, den, x - y, 0, q); RemainderUnique(0, q, 0, 0); }
  }

  lemma InverseOfReduced(den: int, d: int, q: int)
    requires IsPrime(q) && den % q != 0 && Cong(den, d, q)
    ensures Cong(d * (Pow(den % q, q - 2) % q), 1, q)
  {
    CongMod(den, q);
    CongPow(den % q, d, q - 2, q);
    FermatInverse(d, q);
    CongMod(Pow(den % q, q - 2), q);
    CongMul(d, d, Pow(den % q, q - 2) % q, Pow(d, q - 2), q);
  }

  lemma QuotientIsWeight(num: int, den: int, z: int, d: int, q: int)
    requires IsPrime(q) && den % q != 0 && Cong(num, z, q) && Cong(den, d, q)
    ensures Cong(((num * (Pow(den % q, q - 2) % q)) % q) * d, z, q)
  {
    InverseOfReduced(den, d, q);
    WeightTimesDistance(num, z, d, Pow(den % q, q - 2) % q, q);
  }

  lemma WeightTimesDistance(num: int, z: int, d: int, inv: int, q: int)
    requires q > 0 && Cong(num, z, q) && Cong(d * inv, 1, q)
    ensures Cong(((num * inv) % q) * d, z, q)
  {
    CongMul(num, z, d * inv, 1, q);
    CongMod(num * inv, q);
    CongMul((num * inv) % q, num * inv, d, d, q);
    assert (num * inv) * d == num * (d * inv);
  }

  // ----- aggregation -----

  predicate SameDimension(cts: seq<Ciphertext>, n: nat) {
    forall i :: 0 <= i < |cts| ==> |cts[i].a| == n
  }

  // lambdas[0] * cts[0] + ... + lambdas[k-1] * cts[k-1]
  function Combine(lambdas: seq<nat>, cts: seq<Ciphertext>, k: nat, n: nat): (c: Ciphertext)
    requires 1 <= k <= |lambdas| && k <= |cts| && SameDimension(cts, n)
    ensures |c.a| == n && Reduced(c)
  {
    if k == 1 then ScaleCiphertext(lambdas[0], cts[0])
    else AddCiphertexts(Combine(lambdas, cts, k - 1, n), ScaleCiphertext(lambdas[k - 1], cts[k - 1]))
  }

  function Plains(cts: seq<Ciphertext>, s: seq<nat>): (ps: seq<nat>)
    requires SameDimension(cts, |s|)
    ensures |ps| == |cts| && forall i :: 0 <= i < |cts| ==> ps[i] == Plain(cts[i], s)
  {
    if cts == [] then [] else
      var n := |cts| - 1;
      Plains(cts[..n], s) + [Plain(cts[n], s)]
  }

  lemma {:induction false} PlainOfCombination(lambdas: seq<nat>, cts: seq<Ciphertext>, k: nat, s: seq<nat>)
    requires 1 <= k <= |lambdas| && k <= |cts| && SameDimension(cts, |s|)
    ensures Cong(Plain(Combine(lambdas, cts, k, |s|), s), WeightedSum(Plains(cts, s), lambdas, k), FHE_PRIME)
  {
    hide Plain, AddCiphertexts, ScaleCiphertext, Plains;
    var i := k - 1;
    PlainOfScaled(lambdas[i], cts[i], s);
    if k == 1 {
      assert WeightedSum(Plains(cts, s), lambdas, 0) == 0;
      CongMod(Plain(cts[0], s) * lambdas[0], FHE_PRIME);
    } else {
      PlainOfCombination(lambdas, cts, i, s);
      PlainOfSum(Combine(lambdas, cts, i, |s|), ScaleCiphertext(lambdas[i], cts[i]), s);
      CombinationStep(Plain(Combine(lambdas, cts, i, |s|), s), WeightedSum(Plains(cts, s), lambdas, i),
                      Plain(cts[i], s) * lambdas[i], FHE_PRIME);
    }
  }

  lemma CombinationStep(p: int, w: int, t: int, q: int)
    requires q > 0 && Cong(p, w, q)
    ensures Cong((p + t % q) % q, w + t, q)
  {
    CongMod(t, q);
    CongAdd(p, w, t % q, t, q);
    CongMod(p + t % q, q);
  }

  datatype EncryptedShare = EncryptedShare(index: nat, ciphertext: Ciphertext)

  function Indices(shares: seq<EncryptedShare>): (xs: seq<nat>)
    ensures |xs| == |shares| && forall i :: 0 <= i < |xs| ==> xs[i] == shares[i].index
  {
    if shares == [] then [] else
      var n := |shares| - 1;
      Indices(shares[..n]) + [shares[n].index]
  }

  function Ciphertexts(shares: seq<EncryptedShare>): (cs: seq<Ciphertext>)
    ensures |cs| == |shares| && forall i :: 0 <= i < |cs| ==> cs[i] == shares[i].ciphertext
  {
    if shares == [] then [] else
      var n := |shares| - 1;
      Ciphertexts(shares[..n]) + [shares[n].ciphertext]
  }

  /** fheThresholdAggregate: the first threshold shares, weighted and added up. */
  method ThresholdAggregate(shares: seq<EncryptedShare>, threshold: nat) returns (r: Option<Ciphertext>, ghost lambdas: seq<nat>)
    requires IsPrime(FHE_PRIME)
    ensures r.Some? <==>
              && 1 <= threshold <= |shares| && Distinct(ReducePoints(Indices(shares[..threshold])), FHE_PRIME)
              && SameDimension(Ciphertexts(shares[..threshold]), |shares[0].ciphertext.a|)
    ensures r.Some? ==>
              && LagrangeWeights(ReducePoints(Indices(shares[..threshold])), lambdas, FHE_PRIME)
              && r.value == Combine(lambdas, Ciphertexts(shares[..threshold]), threshold, |shares[0].ciphertext.a|)
  {
    hide AddCiphertexts, ScaleCiphertext, ReducePoints, Indices, Ciphertexts, LagrangeWeights, Distinct;
    if |shares| < threshold || threshold == 0 { return None, []; }
    var active := shares[..threshold];
    ghost var n := |shares[0].ciphertext.a|;
    var weights := LagrangeCoefficients(Indices(active));
    if weights.None? { return None, []; }
    var ls := weights.value;
    forall i | 0 <= i < |ls|
      ensures ls[i] % FHE_PRIME == ls[i]
    {
      RemainderUnique(ls[i], FHE_PRIME, 0, ls[i]);
    }
    var acc := FheScalarMul(ls[0], active[0].ciphertext);
    for i := 1 to threshold
      invariant |acc.a| == n
      invariant SameDimension(Ciphertexts(active)[..i], n)
      invariant acc == Combine(ls, Ciphertexts(active)[..i], i, n)
    {
      var term := FheScalarMul(ls[i], active[i].ciphertext);
      var sum := FheAdd(acc, term);
      if sum.None? { return None, []; }
      CombinePrefix(ls, Ciphertexts(active)[..i], Ciphertexts(active)[..i + 1], i, n);
      acc := sum.value;
    }
    assert Ciphertexts(active)[..threshold] == Ciphertexts(active);
    return Some(acc), ls;
  }

  lemma {:induction false} CombinePrefix(lambdas: seq<nat>, cts: seq<Ciphertext>, more: seq<Ciphertext>, k: nat, n: nat)
    requires 1 <= k <= |lambdas| && k <= |cts| && SameDimension(cts, n) && cts <= more && SameDimension(more, n)
    ensures Combine(lambdas, more, k, n) == Combine(lambdas, cts, k, n)
  {
    if k > 1 { CombinePrefix(lambdas, cts, more, k - 1, n); }
  }

  // Shares of the polynomial coeffs: share i is an encryption of its value at index i.
  ghost predicate AreSharesOf(shares: seq<EncryptedShare>, coeffs: seq<nat>, s: seq<nat>) {
    forall i :: 0 <= i < |shares| ==>
      |shares[i].ciphertext.a| == |s| && Plain(shares[i].ciphertext, s) == Eval(coeffs, shares[i].index) % FHE_PRIME
  }

  /** Homomorphic threshold reconstruction: the aggregate of threshold shares with different
      indices decrypts to the constant term of the shared polynomial. */
  lemma ThresholdReconstruction(shares: seq<EncryptedShare>, coeffs: seq<nat>, lambdas: seq<nat>, s: seq<nat>)
    requires IsPrime(FHE_PRIME) && 1 <= |coeffs| <= |shares| && AreSharesOf(shares, coeffs, s)
    requires SameDimension(Ciphertexts(shares), |s|)
    requires Distinct(ReducePoints(Indices(shares)), FHE_PRIME)
    requires LagrangeWeights(ReducePoints(Indices(shares)), lambdas, FHE_PRIME)
    ensures Plain(Combine(lambdas, Ciphertexts(shares), |shares|, |s|), s) == coeffs[0] % FHE_PRIME
  {
    var k := |shares|;
    var xs, ys := ReducePoints(Indices(shares)), Plains(Ciphertexts(shares), s);
    forall i | 0 <= i < k
      ensures Cong(ys[i], Eval(coeffs, xs[i]), FHE_PRIME)
    {
      CongMod(Eval(coeffs, shares[i].index), FHE_PRIME);
      CongMod(shares[i].index, FHE_PRIME);
      EvalCong(coeffs, xs[i], shares[i].index, FHE_PRIME);
    }
    Interpolation(coeffs, xs, ys, lambdas, FHE_PRIME);
    PlainOfCombination(lambdas, Ciphertexts(shares), k, s);
    var p := Plain(Combine(lambdas, Ciphertexts(shares), k, |s|), s);
    RemainderUnique(p, FHE_PRIME, 0, p);
  }

  /** fheAdditiveAggregate. */
  method AdditiveAggregate(cts: seq<Ciphertext>) returns (r: Option<Ciphertext>)
    ensures r.Some? <==> cts != [] && SameDimension(cts, |cts[0].a|)
    ensures r.Some? ==> forall s: seq<nat> :: |s| == |cts[0].a| ==>
              |r.value.a| == |s| && Cong(Plain(r.value, s), SumOf(Plains(cts, s), |cts|), FHE_PRIME)
    ensures r.Some? && (forall i :: 0 <= i < |cts| ==> Reduced(cts[i])) ==> Reduced(r.value)
  {
    hide Plain, Plains, SumOf, AddCiphertexts;
    if |cts| == 0 { return None; }
    forall s: seq<nat> | |s| == |cts[0].a|
      ensures Cong(Plain(cts[0], s), SumOf(Plains(cts[..1], s), 1), FHE_PRIME)
    {
      AdditiveBase(cts, s);
    }
    var acc := cts[0];
    for i := 1 to |cts|
      invariant SameDimension(cts[..i], |cts[0].a|) && |acc.a| == |cts[0].a|
      invariant Reduced(cts[0]) ==> Reduced(acc)
      invariant forall s: seq<nat> :: |s| == |cts[0].a| ==> Cong(Plain(acc, s), SumOf(Plains(cts[..i], s), i), FHE_PRIME)
    {
      var sum := FheAdd(acc, cts[i]);
      if sum.None? { return None; }
      forall s: seq<nat> | |s| == |cts[0].a|
        ensures Cong(Plain(sum.value, s), SumOf(Plains(cts[..i + 1], s), i + 1), FHE_PRIME)
      {
        AdditiveStep(cts, i, acc, s);
      }
      acc := sum.value;
    }
    assert cts[..|cts|] == cts;
    return Some(acc);
  }

  lemma AdditiveBase(cts: seq<Ciphertext>, s: seq<nat>)
    requires cts != [] && |cts[0].a| == |s|
    ensures SameDimension(cts[..1], |s|) && SumOf(Plains(cts[..1], s), 1) == Plain(cts[0], s)
  {
    hide Plain;
    assert cts[..1] == [cts[0]];
    assert SumOf(Plains(cts[..1], s), 0) == 0;
  }

  lemma AdditiveStep(cts: seq<Ciphertext>, i: nat, acc: Ciphertext, s: seq<nat>)
    requires i < |cts| && SameDimension(cts[..i], |s|) && |cts[i].a| == |acc.a| == |s|
    requires Cong(Plain(acc, s), SumOf(Plains(cts[..i], s), i), FHE_PRIME)
    ensures SameDimension(cts[..i + 1], |s|)
    ensures Cong(Plain(AddCiphertexts(acc, cts[i]), s), SumOf(Plains(cts[..i + 1], s), i + 1), FHE_PRIME)
  {
    assert cts[..i + 1][..i] == cts[..i];
    PlainOfSum(acc, cts[i], s);
    hide Plain, AddCiphertexts, Cong;
    var ps, qs := Plains(cts[..i], s), Plains(cts[..i + 1], s);
    assert qs == ps + [Plain(cts[i], s)];
    SumOfPrefix(ps, qs, i);
    SumStep(Plain(acc, s), SumOf(ps, i), Plain(cts[i], s), FHE_PRIME);
  }

  // The sum of the first n elements.
  function SumOf(xs: seq<nat>, n: nat): nat
    requires n <= |xs|
  {
    if n == 0 then 0 else SumOf(xs, n - 1) + xs[n - 1]
  }

  lemma {:induction false} SumOfPrefix(xs: seq<nat>, ys: seq<nat>, n: nat)
    requires n <= |xs| && xs <= ys
    ensures SumOf(ys, n) == SumOf(xs, n)
  {
    if n != 0 { SumOfPrefix(xs, ys, n - 1); }
  }
}

/** Polynomials over the integers as little-endian coefficient lists, their roots modulo a
    prime, and Lagrange interpolation at 0. */
module Polynomials {
  import opened Numbers

  function Eval(p: seq<int>, t: int): int {
    if p == [] then 0 else p[0] + t * Eval(p[1..], t)
  }

  lemma EvalAtZero(p: seq<int>)
    requires p != []
    ensures Eval(p, 0) == p[0]
  {}

  // The step of a loop that accumulates powers of t from the lowest coefficient up.
  lemma {:induction false} EvalPrefix(p: seq<int>, i: nat, t: int)
    requires i < |p|
    ensures Eval(p[..i + 1], t) == Eval(p[..i], t) + p[i] * Pow(t, i)
  {
    if i == 0 {
      assert p[..1] == [p[0]] && p[..0] == [];
      assert p[..1][1..] == [];
    } else {
      EvalPrefix(p[1..], i - 1, t);
      assert p[..i + 1][1..] == p[1..][..i] && p[..i][1..] == p[1..][..i - 1];
      PrefixAlgebra(p[0], t, Eval(p[1..][..i - 1], t), p[i], Pow(t, i - 1));
      EvalHead(p[..i + 1], t);
      EvalHead(p[..i], t);
      assert Pow(t, i) == t * Pow(t, i - 1);
      hide Eval, Pow;
    }
  }

  lemma EvalHead(p: seq<int>, t: int)
    requires p != []
    ensures Eval(p, t) == p[0] + t * Eval(p[1..], t)
  {}

  lemma PrefixAlgebra(h: int, t: int, e: int, c: int, w: int)
    ensures h + t * (e + c * w) == (h + t * e) + c * (t * w)
  {
    assert t * (e + c * w) == t * e + t * (c * w);
    assert t * (c * w) == c * (t * w);
  }

  lemma {:induction false} EvalCong(p: seq<int>, s: int, t: int, q: int)
    requires q > 0 && Cong(s, t, q)
    ensures Cong(Eval(p, s), Eval(p, t), q)
  {
    if p != [] {
      EvalCong(p[1..], s, t, q);
      CongMul(s, t, Eval(p[1..], s), Eval(p[1..], t), q);
      CongAdd(p[0], p[0], s * Eval(p[1..], s), t * Eval(p[1..], t), q);
    }
  }

  function Add(p: seq<int>, r: seq<int>): (s: seq<int>)
    ensures |s| == if |p| >= |r| then |p| else |r|
  {
    if p == [] then r else if r == [] then p else [p[0] + r[0]] + Add(p[1..], r[1..])
  }

  lemma {:induction false} EvalAdd(p: seq<int>, r: seq<int>, t: int)
    ensures Eval(Add(p, r), t) == Eval(p, t) + Eval(r, t)
  {
    if p != [] && r != [] {
      EvalAdd(p[1..], r[1..], t);
      assert Add(p, r)[1..] == Add(p[1..], r[1..]);
      var a, b := Eval(p[1..], t), Eval(r[1..], t);
      assert t * (a + b) == t * a + t * b;
    }
  }

  function Scale(c: int, p: seq<int>): (s: seq<int>)
    ensures |s| == |p|
  {
    if p == [] then [] else [c * p[0]] + Scale(c, p[1..])
  }

  lemma {:induction false} EvalScale(c: int, p: seq<int>, t: int)
    ensures Eval(Scale(c, p), t) == c * Eval(p, t)
  {
    if p != [] {
      EvalScale(c, p[1..], t);
      assert Scale(c, p)[1..] == Scale(c, p[1..]);
      var a := Eval(p[1..], t);
      assert t * (c * a) == c * (t * a);
      assert c * (p[0] + t * a) == c * p[0] + c * (t * a);
    }
  }

  // p * (c - t)
  function MulLinear(p: seq<int>, c: int): (s: seq<int>)
    ensures |s| == |p| + 1
  {
    Add(Scale(c, p), [0] + Scale(-1, p))
  }

  lemma EvalMulLinear(p: seq<int>, c: int, t: int)
    ensures Eval(MulLinear(p, c), t) == Eval(p, t) * (c - t)
  {
    var m := Scale(-1, p);
    EvalScale(c, p, t);
    EvalScale(-1, p, t);
    EvalAdd(Scale(c, p), [0] + m, t);
    EvalShift(m, t);
    LinearAlgebra(c, t, Eval(p, t));
    hide Eval, Scale, Add;
  }

  lemma EvalShift(p: seq<int>, t: int)
    ensures Eval([0] + p, t) == t * Eval(p, t)
  {
    assert ([0] + p)[1..] == p;
  }

  lemma LinearAlgebra(c: int, t: int, e: int)
    ensures c * e + t * (-1 * e) == e * (c - t)
  {
    assert t * (-1 * e) == -(t * e);
  }

  // ----- roots -----

  // p(t) - p(r) divided by t - r
  function Quotient(p: seq<int>, r: int): (s: seq<int>)
    ensures |s| == if p == [] then 0 else |p| - 1
  {
    if |p| <= 1 then [] else [Eval(p[1..], r)] + Quotient(p[1..], r)
  }

  lemma {:induction false} EvalQuotient(p: seq<int>, r: int, t: int)
    ensures Eval(p, t) - Eval(p, r) == (t - r) * Eval(Quotient(p, r), t)
  {
    if |p| <= 1 {
      if |p| == 1 { assert Eval(p[1..], t) == 0 && Eval(p[1..], r) == 0; }
    } else {
      EvalQuotient(p[1..], r, t);
      assert Quotient(p, r)[1..] == Quotient(p[1..], r);
      QuotientAlgebra(t, r, Eval(p[1..], t), Eval(p[1..], r), Eval(Quotient(p[1..], r), t));
    }
  }

  lemma QuotientAlgebra(t: int, r: int, a: int, b: int, c: int)
    requires a - b == (t - r) * c
    ensures t * a - r * b == (t - r) * (b + t * c)
  {
    calc {
      t * a - r * b;
      t * (a - b) + (t - r) * b;
      t * ((t - r) * c) + (t - r) * b;
      { assert t * ((t - r) * c) == (t - r) * (t * c); }
      (t - r) * (t * c) + (t - r) * b;
      (t - r) * (b + t * c);
    }
  }

  // The points are pairwise different modulo q.
  ghost predicate Distinct(xs: seq<int>, q: int)
    requires q > 0
  {
    forall i, j :: 0 <= i < j < |xs| ==> !Cong(xs[i], xs[j], q)
  }

  // A polynomial with at least as many roots as coefficients vanishes everywhere mod q.
  lemma {:induction false} TooManyRoots(p: seq<int>, xs: seq<int>, t: int, q: int)
    requires IsPrime(q) && Distinct(xs, q) && |p| <= |xs|
    requires forall i :: 0 <= i < |xs| ==> Cong(Eval(p, xs[i]), 0, q)
    ensures Cong(Eval(p, t), 0, q)
    decreases |p|
  {
    if p != [] {
      var n := |xs| - 1;
      var r, quo := xs[n], Quotient(p, xs[n]);
      var rest := xs[..n];
      forall i | 0 <= i < n
        ensures Cong(Eval(quo, rest[i]), 0, q)
      {
        var x := xs[i];
        EvalQuotient(p, r, x);
        CongSub(Eval(p, x), 0, Eval(p, r), 0, q);
        CongZeroSub(x, r, q);
        EuclidLemma(x - r, Eval(quo, x), q);
        RemainderUnique(0, q, 0, 0);
      }
      TooManyRoots(quo, rest, t, q);
      EvalQuotient(p, r, t);
      CongMul(t - r, t - r, Eval(quo, t), 0, q);
      CongAdd(Eval(p, r), 0, (t - r) * Eval(quo, t), 0, q);
    }
  }

  // ----- Lagrange interpolation at 0 -----

  // The product of xs[m] - t over all m < j other than i.
  function ProductSkip(xs: seq<int>, i: nat, j: nat, t: int): int
    requires j <= |xs|
  {
    if j == 0 then 1
    else if j - 1 == i then ProductSkip(xs, i, j - 1, t)
    else ProductSkip(xs, i, j - 1, t) * (xs[j - 1] - t)
  }

  // The same product as a polynomial in t.
  function ProductPoly(xs: seq<int>, i: nat, j: nat): (p: seq<int>)
    requires j <= |xs|
    ensures |p| == if i < j then j else j + 1
  {
    if j == 0 then [1]
    else if j - 1 == i then ProductPoly(xs, i, j - 1)
    else MulLinear(ProductPoly(xs, i, j - 1), xs[j - 1])
  }

  lemma EvalOne(t: int)
    ensures Eval([1], t) == 1
  {
    assert [1][1..] == [];
  }

  lemma {:induction false} EvalProductPoly(xs: seq<int>, i: nat, j: nat, t: int)
    requires j <= |xs|
    ensures Eval(ProductPoly(xs, i, j), t) == ProductSkip(xs, i, j, t)
  {
    EvalOne(t);
    hide Eval, MulLinear;
    if j > 0 {
      EvalProductPoly(xs, i, j - 1, t);
      if j - 1 != i { EvalMulLinear(ProductPoly(xs, i, j - 1), xs[j - 1], t); }
    }
  }

  lemma {:induction false} ProductSkipZero(xs: seq<int>, i: nat, j: nat, m: nat)
    requires j <= |xs| && m < j && m != i
    ensures ProductSkip(xs, i, j, xs[m]) == 0
  {
    if j - 1 != m { ProductSkipZero(xs, i, j - 1, m); }
  }

  lemma {:induction false} ProductSkipNonzero(xs: seq<int>, i: nat, j: nat, q: int)
    requires IsPrime(q) && Distinct(xs, q) && i < |xs| && j <= |xs|
    ensures ProductSkip(xs, i, j, xs[i]) % q != 0
  {
    RemainderUnique(1, q, 0, 1);
    if j != 0 {
      ProductSkipNonzero(xs, i, j - 1, q);
      if j - 1 != i {
        var f, d := ProductSkip(xs, i, j - 1, xs[i]), xs[j - 1] - xs[i];
        assert d % q != 0 by {
          CongZeroSub(xs[j - 1], xs[i], q);
          assert !Cong(xs[j - 1], xs[i], q) by {
            if j - 1 < i { assert !Cong(xs[j - 1], xs[i], q); } else { assert !Cong(xs[i], xs[j - 1], q); }
          }
        }
        if (f * d) % q == 0 { EuclidLemma(f, d, q); }
      }
    }
  }

  // The sum of ys[i] * ws[i] over i < m.
  function WeightedSum(ys: seq<int>, ws: seq<int>, m: nat): int
    requires m <= |ys| && m <= |ws|
  {
    if m == 0 then 0 else WeightedSum(ys, ws, m - 1) + ys[m - 1] * ws[m - 1]
  }

  lemma {:induction false} WeightedSumSnoc(ys: seq<int>, ws: seq<int>, w: int, m: nat)
    requires m <= |ws| && m <= |ys|
    ensures WeightedSum(ys, ws + [w], m) == WeightedSum(ys, ws, m)
  {
    if m != 0 { WeightedSumSnoc(ys, ws, w, m - 1); }
  }

  // The polynomial sum of cs[i] * ProductPoly(xs, i) over i < m.
  function Combination(xs: seq<int>, cs: seq<int>, m: nat): (p: seq<int>)
    requires |cs| == |xs| && m <= |xs|
    ensures |p| == if m == 0 then 0 else |xs|
  {
    if m == 0 then []
    else Add(Combination(xs, cs, m - 1), Scale(cs[m - 1], ProductPoly(xs, m - 1, |xs|)))
  }

  lemma CombinationStep(xs: seq<int>, cs: seq<int>, m: nat, t: int)
    requires |cs| == |xs| && 0 < m <= |xs|
    ensures Eval(Combination(xs, cs, m), t)
         == Eval(Combination(xs, cs, m - 1), t) + cs[m - 1] * ProductSkip(xs, m - 1, |xs|, t)
  {
    var poly := ProductPoly(xs, m - 1, |xs|);
    EvalAdd(Combination(xs, cs, m - 1), Scale(cs[m - 1], poly), t);
    EvalScale(cs[m - 1], poly, t);
    EvalProductPoly(xs, m - 1, |xs|, t);
  }

  // At a data point only that point's own term survives.
  lemma {:induction false} CombinationAtPoint(xs: seq<int>, cs: seq<int>, m: nat, i: nat)
    requires |cs| == |xs| && m <= |xs| && i < |xs|
    ensures Eval(Combination(xs, cs, m), xs[i])
         == if i < m then cs[i] * ProductSkip(xs, i, |xs|, xs[i]) else 0
  {
    if m != 0 {
      CombinationAtPoint(xs, cs, m - 1, i);
      CombinationStep(xs, cs, m, xs[i]);
      if m - 1 != i {
        ProductSkipZero(xs, m - 1, |xs|, i);
        assert cs[m - 1] * 0 == 0;
      }
    }
  }

  // What each source computes as the i-th Lagrange weight at 0: the product of the other
  // points divided by the product of their distances to xs[i], in whatever order.
  ghost predicate LagrangeWeights(xs: seq<int>, ws: seq<int>, q: int)
    requires q > 0
  {
    |ws| == |xs| &&
    forall i :: 0 <= i < |xs| ==> IsWeight(xs, i, ws[i], q)
  }

  ghost predicate IsWeight(xs: seq<int>, i: nat, w: int, q: int)
    requires q > 0 && i < |xs|
  {
    Solves(w, ProductSkip(xs, i, |xs|, xs[i]), ProductSkip(xs, i, |xs|, 0), q)
  }

  // w times d is z modulo q.
  ghost predicate Solves(w: int, d: int, z: int, q: int)
    requires q > 0
  {
    Agree(Multiply(w, d), z, q)
  }

  lemma SolvesIs(w: int, d: int, z: int, q: int)
    requires q > 0
    ensures Solves(w, d, z, q) <==> Cong(w * d, z, q)
  {
    MultiplyIs(w, d);
    AgreeIsCong(w * d, z, q);
  }

  // Inverses of the distance products, scaled by the data values.
  ghost function LagrangeScale(xs: seq<int>, ys: seq<int>, q: int): (cs: seq<int>)
    requires q > 1 && |xs| == |ys|
    ensures |cs| == |xs|
  {
    seq(|xs|, i requires 0 <= i < |xs| => ys[i] * Pow(ProductSkip(xs, i, |xs|, xs[i]), q - 2))
  }

  lemma CoefficientValue(xs: seq<int>, ys: seq<int>, ws: seq<int>, i: nat, q: int)
    requires IsPrime(q) && Distinct(xs, q) && |xs| == |ys| && LagrangeWeights(xs, ws, q) && i < |xs|
    ensures var c := LagrangeScale(xs, ys, q)[i];
            Cong(c * ProductSkip(xs, i, |xs|, xs[i]), ys[i], q) &&
            Cong(c * ProductSkip(xs, i, |xs|, 0), ys[i] * ws[i], q)
  {
    var d := ProductSkip(xs, i, |xs|, xs[i]);
    ProductSkipNonzero(xs, i, |xs|, q);
    FermatInverse(d, q);
    assert IsWeight(xs, i, ws[i], q);
    SolvesIs(ws[i], d, ProductSkip(xs, i, |xs|, 0), q);
    WeightAlgebra(ys[i], Pow(d, q - 2), d, ws[i], ProductSkip(xs, i, |xs|, 0), q);
  }

  lemma WeightAlgebra(y: int, v: int, d: int, w: int, z: int, q: int)
    requires q > 0 && Cong(d * v, 1, q) && Cong(w * d, z, q)
    ensures Cong((y * v) * d, y, q) && Cong((y * v) * z, y * w, q)
  {
    CongMul(y, y, d * v, 1, q);
    assert (y * v) * d == y * (d * v);
    CongMul(y * v, y * v, z, w * d, q);
    CongMul(y * w, y * w, d * v, 1, q);
    MulShuffle(y, v, w, d);
    assert v * d == d * v;
  }

  lemma NothingAtZero(xs: seq<int>, cs: seq<int>, q: int)
    requires |cs| == |xs| && q > 0
    ensures Cong(Eval(Combination(xs, cs, 0), 0), 0, q)
  {}

  lemma {:induction false} CombinationAtZero(xs: seq<int>, ys: seq<int>, ws: seq<int>, m: nat, q: int)
    requires IsPrime(q) && Distinct(xs, q) && |xs| == |ys| && LagrangeWeights(xs, ws, q) && m <= |xs|
    ensures Cong(Eval(Combination(xs, LagrangeScale(xs, ys, q), m), 0), WeightedSum(ys, ws, m), q)
  {
    hide Eval, Combination, Cong, ProductSkip, LagrangeScale, Distinct;
    if m == 0 {
      NothingAtZero(xs, LagrangeScale(xs, ys, q), q);
    } else {
      var cs := LagrangeScale(xs, ys, q);
      CombinationAtZero(xs, ys, ws, m - 1, q);
      CombinationStep(xs, cs, m, 0);
      CoefficientValue(xs, ys, ws, m - 1, q);
      CongAdd(Eval(Combination(xs, cs, m - 1), 0), WeightedSum(ys, ws, m - 1),
              cs[m - 1] * ProductSkip(xs, m - 1, |xs|, 0), ys[m - 1] * ws[m - 1], q);
    }
  }

  // The interpolating polynomial minus p.
  ghost function Difference(p: seq<int>, xs: seq<int>, ys: seq<int>, q: int): (d: seq<int>)
    requires |xs| == |ys| && q >= 2
    ensures |d| <= if |p| <= |xs| then |xs| else |p|
  {
    Add(Combination(xs, LagrangeScale(xs, ys, q), |xs|), Scale(-1, p))
  }

  lemma DifferenceValue(p: seq<int>, xs: seq<int>, ys: seq<int>, q: int, t: int)
    requires |xs| == |ys| && q >= 2
    ensures Eval(Difference(p, xs, ys, q), t)
         == Eval(Combination(xs, LagrangeScale(xs, ys, q), |xs|), t) - Eval(p, t)
  {
    var r := Combination(xs, LagrangeScale(xs, ys, q), |xs|);
    EvalAdd(r, Scale(-1, p), t);
    EvalScale(-1, p, t);
    hide Eval, Combination, LagrangeScale, Scale, Add;
  }

  lemma DifferenceVanishes(p: seq<int>, xs: seq<int>, ys: seq<int>, ws: seq<int>, i: nat, q: int)
    requires IsPrime(q) && Distinct(xs, q) && |xs| == |ys| && i < |xs|
    requires Cong(ys[i], Eval(p, xs[i]), q) && LagrangeWeights(xs, ws, q)
    ensures Cong(Eval(Difference(p, xs, ys, q), xs[i]), 0, q)
  {
    var cs := LagrangeScale(xs, ys, q);
    DifferenceValue(p, xs, ys, q, xs[i]);
    CombinationAtPoint(xs, cs, |xs|, i);
    CoefficientValue(xs, ys, ws, i, q);
    hide Eval, Combination, LagrangeScale, Difference, ProductSkip, Distinct;
    CongSub(Eval(Combination(xs, cs, |xs|), xs[i]), ys[i], Eval(p, xs[i]), ys[i], q);
  }

  lemma DifferenceVanishesAtZero(p: seq<int>, xs: seq<int>, ys: seq<int>, ws: seq<int>, q: int)
    requires IsPrime(q) && Distinct(xs, q) && |p| <= |xs| == |ys|
    requires forall i :: 0 <= i < |xs| ==> Cong(ys[i], Eval(p, xs[i]), q)
    requires LagrangeWeights(xs, ws, q)
    ensures Cong(Eval(Difference(p, xs, ys, q), 0), 0, q)
  {
    var diff := Difference(p, xs, ys, q);
    hide Eval, Difference, Distinct, Cong, LagrangeWeights;
    forall i | 0 <= i < |xs|
      ensures Cong(Eval(diff, xs[i]), 0, q)
    {
      DifferenceVanishes(p, xs, ys, ws, i, q);
    }
    TooManyRoots(diff, xs, 0, q);
  }

  /** Interpolation at 0: at least as many distinct points as coefficients determine the
      constant term, whatever the points, their order or their number. */
  lemma Interpolation(p: seq<int>, xs: seq<int>, ys: seq<int>, ws: seq<int>, q: int)
    requires IsPrime(q) && Distinct(xs, q) && 1 <= |p| <= |xs| == |ys|
    requires forall i :: 0 <= i < |xs| ==> Cong(ys[i], Eval(p, xs[i]), q)
    requires LagrangeWeights(xs, ws, q)
    ensures Cong(WeightedSum(ys, ws, |xs|), p[0], q)
  {
    hide Eval, Combination, LagrangeScale, Difference, Distinct, Cong, WeightedSum;
    EvalAtZero(p);
    DifferenceVanishesAtZero(p, xs, ys, ws, q);
    DifferenceValue(p, xs, ys, q, 0);
    CombinationAtZero(xs, ys, ws, |xs|, q);
    var r := Eval(Combination(xs, LagrangeScale(xs, ys, q), |xs|), 0);
    SameRemainder(r, p[0], WeightedSum(ys, ws, |xs|), q);
  }

  lemma SameRemainder(r: int, p: int, w: int, q: int)
    requires q > 0 && Cong(r - p, 0, q) && Cong(r, w, q)
    ensures Cong(w, p, q)
  {
    CongAdd(r - p, 0, p, p, q);
  }
}

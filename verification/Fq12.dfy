/** The field Fq12 of zk_verifier.rs: polynomials in w over Fq2 with w^6 == 9 + i. */
module Fq12 {
  import opened Fp
  import opened Fq2
  import opened Limbs
  import opened Numbers
  import Radix

  // The polynomials of degree below 6 over the Gaussian integers; an element of Fq12 represents one modulo p.
  type Poly = x: seq<Gaussian> | |x| == 6 witness [NIL, NIL, NIL, NIL, NIL, NIL]

  const BETA := Gaussian(9, 1)
  const ZERO: Poly := [NIL, NIL, NIL, NIL, NIL, NIL]
  const ONE: Poly := [UNIT, NIL, NIL, NIL, NIL, NIL]

  // x times beta.
  function TimesBeta(x: Gaussian): Gaussian {
    Gaussian(9 * x.re - x.im, x.re + 9 * x.im)
  }

  function Add(x: Poly, y: Poly): Poly {
    seq(6, i requires 0 <= i < 6 => Plus(x[i], y[i]))
  }

  function Scale(c: Gaussian, x: Poly): Poly {
    seq(6, i requires 0 <= i < 6 => Times(c, x[i]))
  }

  // w times x.
  function Shift(x: Poly): Poly {
    seq(6, i requires 0 <= i < 6 => if i == 0 then TimesBeta(x[5]) else x[i - 1])
  }

  // w^n times x.
  function ShiftBy(x: Poly, n: nat): Poly {
    if n == 0 then x else Shift(ShiftBy(x, n - 1))
  }

  // The product of the first n terms of x with y.
  function Partial(x: Poly, y: Poly, n: nat): Poly
    requires n <= 6
  {
    if n == 0 then ZERO else Add(Partial(x, y, n - 1), Scale(x[n - 1], ShiftBy(y, n - 1)))
  }

  function Times12(x: Poly, y: Poly): Poly {
    Partial(x, y, 6)
  }

  function Power12(x: Poly, e: nat): Poly {
    if e == 0 then ONE else Times12(x, Power12(x, e - 1))
  }

  // ----- ring laws of the Gaussian integers -----

  lemma TimesCommutative(x: Gaussian, y: Gaussian)
    ensures Times(x, y) == Times(y, x)
  {
    TimesIs(x, y);
    TimesIs(y, x);
    hide Times;
  }

  lemma TimesPlus(x: Gaussian, y: Gaussian, z: Gaussian)
    ensures Times(x, Plus(y, z)) == Plus(Times(x, y), Times(x, z))
    ensures Times(Plus(y, z), x) == Plus(Times(y, x), Times(z, x))
  {
    TimesIs(x, y);
    TimesIs(x, z);
    TimesIs(x, Plus(y, z));
    TimesCommutative(x, y);
    TimesCommutative(x, z);
    TimesCommutative(x, Plus(y, z));
    hide Times;
    Distributes(x.re, x.im, y.re, y.im, z.re, z.im);
  }

  lemma Distributes(a: int, b: int, c: int, d: int, e: int, f: int)
    ensures a * (c + e) - b * (d + f) == (a * c - b * d) + (a * e - b * f)
    ensures a * (d + f) + b * (c + e) == (a * d + b * c) + (a * f + b * e)
  {}

  lemma TimesNil(x: Gaussian)
    ensures Times(x, NIL) == NIL && Times(NIL, x) == NIL
  {
    TimesIs(x, NIL);
    TimesIs(NIL, x);
    hide Times;
  }

  lemma PlusNil(x: Gaussian)
    ensures Plus(x, NIL) == x && Plus(NIL, x) == x
  {}

  lemma PlusAssociative(x: Gaussian, y: Gaussian, z: Gaussian)
    ensures Plus(Plus(x, y), z) == Plus(x, Plus(y, z))
  {}

  lemma PlusCommutative(x: Gaussian, y: Gaussian)
    ensures Plus(x, y) == Plus(y, x)
  {}

  // Two factors in front of a third change places.
  lemma TimesSwap(x: Gaussian, y: Gaussian, z: Gaussian)
    ensures Times(x, Times(y, z)) == Times(y, Times(x, z))
  {
    TimesAssociative(x, y, z);
    TimesAssociative(y, x, z);
    TimesCommutative(x, y);
    hide Times;
  }

  lemma TimesBetaIs(x: Gaussian)
    ensures Times(x, BETA) == TimesBeta(x)
  {
    TimesIs(x, BETA);
    hide Times;
  }

  lemma BetaPlus(x: Gaussian, y: Gaussian)
    ensures TimesBeta(Plus(x, y)) == Plus(TimesBeta(x), TimesBeta(y))
  {}

  lemma BetaNil()
    ensures TimesBeta(NIL) == NIL
  {}

  lemma BetaSwap(x: Gaussian, y: Gaussian)
    ensures Times(x, TimesBeta(y)) == TimesBeta(Times(x, y))
  {
    hide Times, TimesBeta;
    TimesBetaIs(y);
    TimesBetaIs(Times(x, y));
    TimesAssociative(x, y, BETA);
  }

  // ----- laws of shifting and scaling -----

  lemma ShiftAdd(x: Poly, y: Poly)
    ensures Shift(Add(x, y)) == Add(Shift(x), Shift(y))
  {
    BetaPlus(x[5], y[5]);
    hide TimesBeta, Plus;
  }

  lemma ShiftScale(c: Gaussian, x: Poly)
    ensures Shift(Scale(c, x)) == Scale(c, Shift(x))
  {
    hide Times, Plus, TimesBeta;
    BetaSwap(c, x[5]);
    forall i | 0 <= i < 6 ensures Shift(Scale(c, x))[i] == Scale(c, Shift(x))[i] {
      assert Scale(c, x)[5] == Times(c, x[5]);
    }
  }

  lemma ScaleAdd(c: Gaussian, x: Poly, y: Poly)
    ensures Scale(c, Add(x, y)) == Add(Scale(c, x), Scale(c, y))
  {
    forall i | 0 <= i < 6 ensures Times(c, Plus(x[i], y[i])) == Plus(Times(c, x[i]), Times(c, y[i])) {
      TimesPlus(c, x[i], y[i]);
    }
    hide Times, Plus;
  }

  lemma ScaleScale(c: Gaussian, d: Gaussian, x: Poly)
    ensures Scale(c, Scale(d, x)) == Scale(Times(c, d), x)
  {
    forall i | 0 <= i < 6 ensures Times(c, Times(d, x[i])) == Times(Times(c, d), x[i]) {
      TimesAssociative(c, d, x[i]);
    }
    hide Times;
  }

  lemma ScalePlus(c: Gaussian, d: Gaussian, x: Poly)
    ensures Scale(Plus(c, d), x) == Add(Scale(c, x), Scale(d, x))
  {
    forall i | 0 <= i < 6 ensures Times(Plus(c, d), x[i]) == Plus(Times(c, x[i]), Times(d, x[i])) {
      TimesPlus(x[i], c, d);
    }
    hide Times, Plus;
  }

  lemma AddSwap(a: Poly, b: Poly, c: Poly, d: Poly)
    ensures Add(Add(a, b), Add(c, d)) == Add(Add(a, c), Add(b, d))
  {}

  lemma AddRotate(a: Poly, b: Poly, c: Poly)
    ensures Add(Add(a, b), c) == Add(a, Add(b, c))
  {}

  lemma ZeroLaws(x: Poly, c: Gaussian)
    ensures Add(ZERO, x) == x && Add(x, ZERO) == x && Scale(c, ZERO) == ZERO && Shift(ZERO) == ZERO
  {
    TimesNil(c);
    hide Times;
  }

  lemma {:induction false} ShiftByShift(x: Poly, n: nat)
    ensures ShiftBy(Shift(x), n) == Shift(ShiftBy(x, n))
  {
    hide Shift;
    if n > 0 {
      ShiftByShift(x, n - 1);
    }
  }

  // w^6 is beta.
  lemma ShiftSix(x: Poly)
    ensures ShiftBy(x, 6) == seq(6, i requires 0 <= i < 6 => TimesBeta(x[i]))
  {
    hide TimesBeta;
    var s2 := Shift(Shift(x));
    var s4 := Shift(Shift(s2));
    assert ShiftBy(x, 2) == s2 by { assert ShiftBy(x, 1) == Shift(ShiftBy(x, 0)); }
    assert ShiftBy(x, 4) == s4 by { assert ShiftBy(x, 3) == Shift(ShiftBy(x, 2)); }
    assert ShiftBy(x, 6) == Shift(Shift(s4)) by { assert ShiftBy(x, 5) == Shift(ShiftBy(x, 4)); }
  }

  // ----- the product is linear in its first factor and commutes with w -----

  lemma {:induction false} PartialAdd(x: Poly, y: Poly, z: Poly, n: nat)
    requires n <= 6
    ensures Partial(Add(x, y), z, n) == Add(Partial(x, z, n), Partial(y, z, n))
  {
    if n == 0 {
      ZeroLaws(ZERO, NIL);
    } else {
      PartialAdd(x, y, z, n - 1);
      var s := ShiftBy(z, n - 1);
      assert Add(x, y)[n - 1] == Plus(x[n - 1], y[n - 1]);
      hide Add, Scale, ShiftBy, Plus;
      ScalePlus(x[n - 1], y[n - 1], s);
      AddSwap(Partial(x, z, n - 1), Partial(y, z, n - 1), Scale(x[n - 1], s), Scale(y[n - 1], s));
    }
  }

  lemma {:induction false} PartialScale(c: Gaussian, x: Poly, y: Poly, n: nat)
    requires n <= 6
    ensures Partial(Scale(c, x), y, n) == Scale(c, Partial(x, y, n))
  {
    if n == 0 {
      ZeroLaws(ZERO, c);
    } else {
      PartialScale(c, x, y, n - 1);
      var s := ShiftBy(y, n - 1);
      assert Scale(c, x)[n - 1] == Times(c, x[n - 1]);
      hide Add, Scale, ShiftBy, Times;
      ScaleScale(c, x[n - 1], s);
      ScaleAdd(c, Partial(x, y, n - 1), Scale(x[n - 1], s));
    }
  }

  lemma {:induction false} PartialShift(x: Poly, y: Poly, n: nat)
    requires n <= 5
    ensures Partial(Shift(x), y, n + 1) == Add(Scale(TimesBeta(x[5]), y), Shift(Partial(x, y, n)))
  {
    hide Add, Scale, ShiftBy, Times, TimesBeta;
    var head := Scale(TimesBeta(x[5]), y);
    if n == 0 {
      FirstTerm(Shift(x), y);
      ZeroLaws(head, NIL);
    } else {
      PartialShift(x, y, n - 1);
      var s := Scale(x[n - 1], ShiftBy(y, n - 1));
      NextShift(y, n - 1);
      ShiftScale(x[n - 1], ShiftBy(y, n - 1));
      ShiftAdd(Partial(x, y, n - 1), s);
      AddRotate(head, Shift(Partial(x, y, n - 1)), Shift(s));
    }
  }

  lemma NextShift(x: Poly, n: nat)
    ensures ShiftBy(x, n + 1) == Shift(ShiftBy(x, n))
  {}

  lemma ShiftTimes(x: Poly, y: Poly)
    ensures Times12(Shift(x), y) == Shift(Times12(x, y))
  {
    hide Add, Scale, Shift, ShiftBy, Times, TimesBeta;
    PartialShift(x, y, 5);
    var last := Scale(x[5], ShiftBy(y, 5));
    assert Times12(x, y) == Add(Partial(x, y, 5), last);
    NextShift(y, 5);
    ShiftScale(x[5], ShiftBy(y, 5));
    ShiftAdd(Partial(x, y, 5), last);
    ScaleSix(x[5], y);
    AddSwaps(Scale(TimesBeta(x[5]), y), Shift(Partial(x, y, 5)));
  }

  lemma ScaleSix(c: Gaussian, y: Poly)
    ensures Scale(c, ShiftBy(y, 6)) == Scale(TimesBeta(c), y)
  {
    ShiftSix(y);
    hide Times, TimesBeta, ShiftBy;
    forall i | 0 <= i < 6 ensures Times(c, TimesBeta(y[i])) == Times(TimesBeta(c), y[i]) {
      BetaSwap(c, y[i]);
      BetaSwap(y[i], c);
      TimesCommutative(c, y[i]);
      TimesCommutative(TimesBeta(c), y[i]);
    }
  }

  lemma AddSwaps(x: Poly, y: Poly)
    ensures Add(x, y) == Add(y, x)
  {}

  lemma {:induction false} ShiftByTimes(x: Poly, y: Poly, n: nat)
    ensures Times12(ShiftBy(x, n), y) == ShiftBy(Times12(x, y), n)
  {
    hide Times12, Shift;
    if n > 0 {
      ShiftByTimes(x, y, n - 1);
      ShiftTimes(ShiftBy(x, n - 1), y);
    }
  }

  lemma {:induction false} PartialTimes(x: Poly, y: Poly, z: Poly, n: nat)
    requires n <= 6
    ensures Times12(Partial(x, y, n), z) == Partial(x, Times12(y, z), n)
  {
    if n == 0 {
      ZeroTimes(ZERO, z, 6);
    } else {
      PartialTimes(x, y, z, n - 1);
      var p, s := Partial(x, y, n - 1), ShiftBy(y, n - 1);
      ShiftByTimes(y, z, n - 1);
      PartialScale(x[n - 1], s, z, 6);
      PartialAdd(p, Scale(x[n - 1], s), z, 6);
      hide Add, Scale, ShiftBy;
    }
  }

  lemma {:induction false} ZeroTimes(o: Poly, z: Poly, n: nat)
    requires n <= 6 && forall i :: 0 <= i < 6 ==> o[i] == NIL
    ensures Partial(o, z, n) == ZERO
  {
    hide Add, Scale, Shift, ShiftBy, Times;
    if n > 0 {
      ZeroTimes(o, z, n - 1);
      NilScales(ShiftBy(z, n - 1));
      ZeroLaws(ZERO, NIL);
    }
  }

  lemma NilScales(x: Poly)
    ensures Scale(NIL, x) == ZERO
  {
    forall i | 0 <= i < 6 ensures Times(NIL, x[i]) == NIL {
      TimesNil(x[i]);
    }
    hide Times;
  }

  // Multiplication modulo w^6 - beta is associative.
  lemma Times12Associative(x: Poly, y: Poly, z: Poly)
    ensures Times12(Times12(x, y), z) == Times12(x, Times12(y, z))
  {
    PartialTimes(x, y, z, 6);
  }

  lemma {:induction false} OneTimes(o: Poly, x: Poly, n: nat)
    requires 0 < n <= 6 && o[0] == UNIT && forall i :: 1 <= i < 6 ==> o[i] == NIL
    ensures Partial(o, x, n) == x
  {
    hide Add, Scale, Shift, ShiftBy, Times;
    if n == 1 {
      UnitScales(x);
      FirstTerm(o, x);
      ZeroLaws(x, UNIT);
    } else {
      OneTimes(o, x, n - 1);
      NilScales(ShiftBy(x, n - 1));
      ZeroLaws(x, NIL);
    }
  }

  lemma UnitScales(x: Poly)
    ensures Scale(UNIT, x) == x
  {
    hide Times;
    forall i | 0 <= i < 6 ensures Times(UNIT, x[i]) == x[i] {
      TimesUnit(x[i]);
    }
  }

  lemma FirstTerm(x: Poly, y: Poly)
    ensures Partial(x, y, 1) == Add(ZERO, Scale(x[0], y))
  {
    hide Add, Scale, Shift;
    assert Partial(x, y, 0) == ZERO && ShiftBy(y, 0) == y;
  }

  // ----- coefficients -----

  // The product of the coefficient of w^i in x with the one of w^(m - i) in y.
  function Term(x: Poly, y: Poly, i: nat, m: nat): Gaussian
    requires i < 6
  {
    if i <= m < i + 6 then Times(x[i], y[m - i]) else NIL
  }

  // The coefficient of w^m in the unreduced product of the first n terms of x with y.
  function Conv(x: Poly, y: Poly, m: nat, n: nat): Gaussian
    requires n <= 6
  {
    if n == 0 then NIL else Plus(Conv(x, y, m, n - 1), Term(x, y, n - 1, m))
  }

  lemma {:induction false} ShiftByAt(y: Poly, i: nat, k: nat)
    requires i < 6 && k < 6
    ensures ShiftBy(y, i)[k] == if i <= k then y[k - i] else TimesBeta(y[k + 6 - i])
  {
    hide TimesBeta;
    if i > 0 {
      ShiftByAt(y, i - 1, if k == 0 then 5 else k - 1);
    }
  }

  // Reducing the unreduced product by w^6 == beta gives the product.
  lemma {:induction false} PartialAt(x: Poly, y: Poly, n: nat, k: nat)
    requires n <= 6 && k < 6
    ensures Partial(x, y, n)[k] == Plus(Conv(x, y, k, n), TimesBeta(Conv(x, y, k + 6, n)))
  {
    hide Times, Plus, Shift, Term, TimesBeta;
    if n == 0 {
      PlusNil(NIL);
      BetaNil();
    } else {
      PartialAt(x, y, n - 1, k);
      TermAt(x, y, n - 1, k);
      var p, q := Conv(x, y, k, n - 1), Conv(x, y, k + 6, n - 1);
      var t, u := Term(x, y, n - 1, k), Term(x, y, n - 1, k + 6);
      BetaPlus(q, u);
      PlusSwap(p, TimesBeta(q), t, TimesBeta(u));
    }
  }

  lemma PlusSwap(a: Gaussian, b: Gaussian, c: Gaussian, d: Gaussian)
    ensures Plus(Plus(a, b), Plus(c, d)) == Plus(Plus(a, c), Plus(b, d))
  {}

  // One term of the product, as an unreduced pair.
  lemma TermAt(x: Poly, y: Poly, i: nat, k: nat)
    requires i < 6 && k < 6
    ensures Times(x[i], ShiftBy(y, i)[k]) == Plus(Term(x, y, i, k), TimesBeta(Term(x, y, i, k + 6)))
  {
    hide Times, Plus, ShiftBy, TimesBeta;
    ShiftByAt(y, i, k);
    BetaNil();
    if i > k {
      BetaSwap(x[i], y[k + 6 - i]);
      PlusNil(TimesBeta(Times(x[i], y[k + 6 - i])));
    } else {
      PlusNil(Times(x[i], y[k - i]));
    }
  }

  // The highest coefficient needs no reduction.
  lemma NoEleventh(x: Poly, y: Poly)
    ensures Times12(x, y)[5] == Conv(x, y, 5, 6)
  {
    PartialAt(x, y, 6, 5);
    ConvEleven(x, y, 6);
    BetaNil();
    PlusNil(Conv(x, y, 5, 6));
    hide Times, Plus, Partial, Conv, TimesBeta;
  }

  lemma {:induction false} ConvEleven(x: Poly, y: Poly, n: nat)
    requires n <= 6
    ensures Conv(x, y, 11, n) == NIL
  {
    hide Times, Plus;
    if n > 0 {
      ConvEleven(x, y, n - 1);
      PlusNil(NIL);
    }
  }

  // ----- elements -----

  const ZERO2 := Element([0, 0, 0, 0], [0, 0, 0, 0])

  // f is the canonical form of x.
  ghost predicate IsElement12(f: seq<Element>, x: Poly) {
    |f| == 6 && forall k :: 0 <= k < 6 ==> IsElement(f[k], x[k])
  }

  // What the eleven sums hold once the first i rows and j products of row i are added.
  function Seen(x: Poly, y: Poly, m: nat, i: nat, j: nat): Gaussian
    requires i < 6 && j <= 6
  {
    Plus(Conv(x, y, m, i), if i <= m < i + j then Times(x[i], y[m - i]) else NIL)
  }

  ghost predicate Sums(t: seq<Element>, x: Poly, y: Poly, n: nat)
    requires n <= 6
  {
    |t| == 11 && forall m :: 0 <= m < 11 ==> IsElement(t[m], Conv(x, y, m, n))
  }

  lemma ZeroIsElement()
    ensures IsElement(ZERO2, NIL)
  {
    hide IsMont;
    ZeroIsMont();
  }

  /** The inner loop of Fq12::mul: the products of one coefficient with all of b. */
  method AddRow(t: array<Element>, f: seq<Element>, b: seq<Element>, i: nat, ghost x: Poly, ghost y: Poly)
    requires i < 6 && IsElement12(f, x) && IsElement12(b, y) && Sums(t[..], x, y, i)
    modifies t
    ensures Sums(t[..], x, y, i + 1)
  {
    hide IsElement, Times, Conv;
    for j := 0 to 6
      invariant t.Length == 11
      invariant forall m :: 0 <= m < 11 ==> IsElement(t[m], Seen(x, y, m, i, j))
    {
      var prod := Mul2(f[i], b[j], x[i], y[j]);
      t[i + j] := Add2(t[i + j], prod, Seen(x, y, i + j, i, j), Times(x[i], y[j]));
    }
    forall m | 0 <= m < 11 ensures Seen(x, y, m, i, 6) == Conv(x, y, m, i + 1) {
      RowDone(x, y, m, i);
    }
  }

  lemma RowDone(x: Poly, y: Poly, m: nat, i: nat)
    requires i < 6
    ensures Seen(x, y, m, i, 6) == Conv(x, y, m, i + 1)
  {}

  /** beta(). */
  method Beta() returns (b: Element)
    ensures IsElement(b, BETA)
  {
    hide IsMont;
    var re := FromU64(9);
    var im := FromU64(1);
    return Element(re, im);
  }

  /** Fq12::mul: the eleven convolution sums, then the upper ones folded back times beta. */
  method Mul12(f: seq<Element>, g: seq<Element>, ghost x: Poly, ghost y: Poly) returns (r: seq<Element>)
    requires IsElement12(f, x) && IsElement12(g, y)
    ensures IsElement12(r, Times12(x, y))
  {
    hide IsElement, Times, TimesBeta, Times12, Conv;
    var b := Beta();
    var t := new Element[11](_ => ZERO2);
    ZeroIsElement();
    NothingSummed(x, y);
    for i := 0 to 6
      invariant Sums(t[..], x, y, i)
    {
      AddRow(t, f, g, i, x, y);
    }
    var out := new Element[6](_ => ZERO2);
    for k := 0 to 5
      invariant Sums(t[..], x, y, 6)
      invariant forall c :: 0 <= c < k ==> IsElement(out[c], Times12(x, y)[c])
    {
      PartialAt(x, y, 6, k);
      ProductAt(x, y, k);
      assert IsElement(t[..][k + 6], Conv(x, y, k + 6, 6)) && IsElement(t[..][k], Conv(x, y, k, 6));
      var high := Mul2(t[k + 6], b, Conv(x, y, k + 6, 6), BETA);
      TimesBetaIs(Conv(x, y, k + 6, 6));
      out[k] := Add2(t[k], high, Conv(x, y, k, 6), TimesBeta(Conv(x, y, k + 6, 6)));
    }
    assert IsElement(t[..][5], Conv(x, y, 5, 6));
    out[5] := t[5];
    NoEleventh(x, y);
    return out[..];
  }

  lemma NothingSummed(x: Poly, y: Poly)
    ensures forall m: nat :: Conv(x, y, m, 0) == NIL
  {}

  lemma ProductAt(x: Poly, y: Poly, k: nat)
    requires k < 6
    ensures Times12(x, y)[k] == Partial(x, y, 6)[k]
  {}

  // ----- powers -----

  lemma {:induction false} Power12Add(x: Poly, m: nat, n: nat)
    ensures Power12(x, m + n) == Times12(Power12(x, m), Power12(x, n))
  {
    hide Times12;
    if m == 0 {
      OneTimes12(Power12(x, n));
    } else {
      Power12Add(x, m - 1, n);
      Times12Associative(x, Power12(x, m - 1), Power12(x, n));
    }
  }

  lemma OneTimes12(x: Poly)
    ensures Times12(ONE, x) == x
  {
    OneTimes(ONE, x, 6);
    hide Partial;
  }

  // x times 1 is x.
  lemma TimesOne(x: Poly)
    ensures Times12(x, ONE) == x
  {
    forall k | 0 <= k < 6 ensures Times12(x, ONE)[k] == x[k] {
      PartialAt(x, ONE, 6, k);
      ConvOne(x, k, 6);
      ConvOne(x, k + 6, 6);
      BetaNil();
      PlusNil(x[k]);
      hide Times, Plus, Partial, Conv, TimesBeta;
    }
    hide Times12;
  }

  lemma {:induction false} ConvOne(x: Poly, m: nat, n: nat)
    requires n <= 6
    ensures Conv(x, ONE, m, n) == if m < n then x[m] else NIL
  {
    hide Times, Plus;
    if n > 0 {
      ConvOne(x, m, n - 1);
      TimesUnit(x[n - 1]);
      TimesNil(x[n - 1]);
      PlusNil(NIL);
      PlusNil(x[n - 1]);
      PlusNil(Conv(x, ONE, m, n - 1));
    }
  }

  const ONE12: seq<Element> := [ONE2, ZERO2, ZERO2, ZERO2, ZERO2, ZERO2]

  lemma OneIsElement12()
    ensures IsElement12(ONE12, ONE)
  {
    OneIsElement();
    ZeroIsElement();
    hide IsElement;
  }

  lemma Power12Zero(x: Poly)
    ensures Power12(x, 0) == ONE
  {}

  /** Fq12::exp_bytes, by square and multiply over big-endian bytes. */
  method ExpBytes12(f: seq<Element>, exponent: seq<nat>, ghost x: Poly) returns (r: seq<Element>)
    requires IsElement12(f, x) && Radix.AreDigits(exponent, 256)
    ensures IsElement12(r, Power12(x, Radix.Value(exponent, 256)))
  {
    assert Radix.Value([], 256) == 0;
    hide IsElement12, Power12, Radix.Value;
    OneIsElement12();
    Power12Zero(x);
    r := ONE12;
    assert exponent[..0] == [];
    for i := 0 to |exponent|
      invariant IsElement12(r, Power12(x, Radix.Value(exponent[..i], 256)))
    {
      r := NextByte12(r, f, exponent, i, x);
    }
    assert exponent[..|exponent|] == exponent;
  }

  method NextByte12(r0: seq<Element>, f: seq<Element>, exponent: seq<nat>, i: nat, ghost x: Poly) returns (r: seq<Element>)
    requires i < |exponent| && Radix.AreDigits(exponent, 256)
    requires IsElement12(f, x) && IsElement12(r0, Power12(x, Radix.Value(exponent[..i], 256)))
    ensures IsElement12(r, Power12(x, Radix.Value(exponent[..i + 1], 256)))
  {
    hide IsElement12, Power12, Radix.Value;
    r := ExpByte12(r0, f, exponent[i], x, Radix.Value(exponent[..i], 256));
    assert exponent[..i + 1] == exponent[..i] + [exponent[i]];
    Radix.ValueSnoc(exponent[..i], exponent[i], 256);
  }

  /** The eight bits of one exponent byte. */
  method ExpByte12(r0: seq<Element>, f: seq<Element>, byte: nat, ghost x: Poly, ghost e0: nat) returns (r: seq<Element>)
    requires IsElement12(f, x) && IsElement12(r0, Power12(x, e0)) && byte < 256
    ensures IsElement12(r, Power12(x, e0 * 256 + byte))
  {
    hide IsElement12, Power12;
    r := r0;
    var bit := 8;
    ghost var e: nat := e0;
    var scale: nat := 256;
    BytePowers();
    while bit > 0
      invariant 0 <= bit <= 8 && scale == Pow(2, bit) > 0
      invariant e * scale + byte % scale == e0 * 256 + byte
      invariant IsElement12(r, Power12(x, e))
    {
      bit := bit - 1;
      Pow2Positive(bit);
      assert scale == 2 * Pow(2, bit);
      scale := scale / 2;
      BitOfByte(byte, e, scale);
      r := ExpBit12(r, f, (byte / scale) % 2 == 1, x, e);
      e := 2 * e + (byte / scale) % 2;
    }
  }

  method ExpBit12(r0: seq<Element>, f: seq<Element>, isSet: bool, ghost x: Poly, ghost e: nat) returns (r: seq<Element>)
    requires IsElement12(f, x) && IsElement12(r0, Power12(x, e))
    ensures IsElement12(r, Power12(x, 2 * e + if isSet then 1 else 0))
  {
    hide IsElement12, Power12, Times12;
    Power12One(x);
    Power12Add(x, e, e);
    Power12Add(x, 2 * e, 1);
    r := Mul12(r0, r0, Power12(x, e), Power12(x, e));
    if isSet {
      r := Mul12(r, f, Power12(x, 2 * e), x);
    }
  }

  lemma Power12One(x: Poly)
    ensures Power12(x, 1) == x
  {
    TimesOne(x);
    assert Power12(x, 1) == Times12(x, Power12(x, 0));
  }
}

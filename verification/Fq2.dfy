/** The quadratic extension Fp[i] / (i^2 + 1) of zk_verifier.rs. */
module Fq2 {
  import opened Numbers
  import opened Limbs
  import opened Fp
  import Radix

  datatype Element = Element(re: seq<nat>, im: seq<nat>)

  // The Gaussian integers, which elements represent modulo p.
  datatype Gaussian = Gaussian(re: int, im: int)

  const UNIT := Gaussian(1, 0)
  const NIL := Gaussian(0, 0)

  function Plus(x: Gaussian, y: Gaussian): Gaussian {
    Gaussian(x.re + y.re, x.im + y.im)
  }

  // (a + b * i) * (c + d * i) with i * i == -1
  function Times(x: Gaussian, y: Gaussian): Gaussian {
    Gaussian(Multiply(x.re, y.re) - Multiply(x.im, y.im), Multiply(x.re, y.im) + Multiply(x.im, y.re))
  }

  lemma TimesIs(x: Gaussian, y: Gaussian)
    ensures Times(x, y) == Gaussian(x.re * y.re - x.im * y.im, x.re * y.im + x.im * y.re)
  {
    MultiplyIs(x.re, y.re);
    MultiplyIs(x.im, y.im);
    MultiplyIs(x.re, y.im);
    MultiplyIs(x.im, y.re);
    hide Multiply;
  }

  function Power(x: Gaussian, e: nat): Gaussian {
    if e == 0 then UNIT else Times(x, Power(x, e - 1))
  }

  lemma TimesUnit(x: Gaussian)
    ensures Times(x, UNIT) == x && Times(UNIT, x) == x
  {
    TimesIs(x, UNIT);
    TimesIs(UNIT, x);
    hide Times;
  }

  lemma TimesAssociative(x: Gaussian, y: Gaussian, z: Gaussian)
    ensures Times(Times(x, y), z) == Times(x, Times(y, z))
  {
    TimesIs(x, y);
    TimesIs(y, z);
    TimesIs(Times(x, y), z);
    TimesIs(x, Times(y, z));
    hide Times;
    GaussianAlgebra(x.re, x.im, y.re, y.im, z.re, z.im);
  }

  lemma GaussianAlgebra(a: int, b: int, c: int, d: int, e: int, f: int)
    ensures (a * c - b * d) * e - (a * d + b * c) * f == a * (c * e - d * f) - b * (c * f + d * e)
    ensures (a * c - b * d) * f + (a * d + b * c) * e == a * (c * f + d * e) + b * (c * e - d * f)
  {}

  lemma {:induction false} PowerAdd(x: Gaussian, m: nat, n: nat)
    ensures Power(x, m + n) == Times(Power(x, m), Power(x, n))
  {
    hide Times;
    if m == 0 {
      TimesUnit(Power(x, n));
    } else {
      PowerAdd(x, m - 1, n);
      TimesAssociative(x, Power(x, m - 1), Power(x, n));
    }
  }

  lemma PowerOne(x: Gaussian)
    ensures Power(x, 1) == x
  {
    TimesUnit(x);
    assert Power(x, 1) == Times(x, Power(x, 0));
  }

  // ----- elements -----

  // z is the canonical form of x.
  ghost predicate IsElement(z: Element, x: Gaussian) {
    IsMont(z.re, x.re) && IsMont(z.im, x.im)
  }

  /** Fq2::mul. */
  method Mul2(z: Element, w: Element, ghost x: Gaussian, ghost y: Gaussian) returns (r: Element)
    requires IsElement(z, x) && IsElement(w, y)
    ensures IsElement(r, Times(x, y))
  {
    TimesIs(x, y);
    hide Times;
    hide Represents;
    MontRepresents(z.re, x.re);
    MontRepresents(z.im, x.im);
    MontRepresents(w.re, y.re);
    MontRepresents(w.im, y.im);
    hide IsMont;
    var ac := MontMul(z.re, w.re, x.re, y.re);
    var bd := MontMul(z.im, w.im, x.im, y.im);
    var re := MontSub(ac, bd, x.re * y.re, x.im * y.im);
    var ad := MontMul(z.re, w.im, x.re, y.im);
    var bc := MontMul(z.im, w.re, x.im, y.re);
    var im := MontAdd(ad, bc, x.re * y.im, x.im * y.re);
    return Element(re, im);
  }

  /** Fq2::sqr. */
  method Sqr2(z: Element, ghost x: Gaussian) returns (r: Element)
    requires IsElement(z, x)
    ensures IsElement(r, Times(x, x))
  {
    TimesIs(x, x);
    hide Times;
    hide Represents;
    MontRepresents(z.re, x.re);
    MontRepresents(z.im, x.im);
    hide IsMont;
    var aa := MontMul(z.re, z.re, x.re, x.re);
    var bb := MontMul(z.im, z.im, x.im, x.im);
    var re := MontSub(aa, bb, x.re * x.re, x.im * x.im);
    var ab := MontMul(z.re, z.im, x.re, x.im);
    var im := MontAdd(ab, ab, x.re * x.im, x.re * x.im);
    SquareImaginary(x.re, x.im);
    return Element(re, im);
  }

  lemma SquareImaginary(a: int, b: int)
    ensures a * b + a * b == a * b + b * a
  {}

  /** Fq2::add. */
  method Add2(z: Element, w: Element, ghost x: Gaussian, ghost y: Gaussian) returns (r: Element)
    requires IsElement(z, x) && IsElement(w, y)
    ensures IsElement(r, Plus(x, y))
  {
    hide IsMont;
    var re := MontAdd(z.re, w.re, x.re, y.re);
    var im := MontAdd(z.im, w.im, x.im, y.im);
    return Element(re, im);
  }

  const ONE2 := Element(ONE_LIMBS, [0, 0, 0, 0])

  lemma OneIsElement()
    ensures IsElement(ONE2, UNIT)
  {
    hide IsMont;
    OneIsMont();
    ZeroIsMont();
  }

  /** Fq2::exp_bytes: square and multiply over big-endian bytes, most significant bit first. */
  method ExpBytes2(z: Element, exponent: seq<nat>, ghost x: Gaussian) returns (r: Element)
    requires IsElement(z, x) && Radix.AreDigits(exponent, 256)
    ensures IsElement(r, Power(x, Radix.Value(exponent, 256)))
  {
    hide IsElement, Power;
    OneIsElement();
    PowerZero(x);
    r := ONE2;
    assert exponent[..0] == [];
    for i := 0 to |exponent|
      invariant IsElement(r, Power(x, Radix.Value(exponent[..i], 256)))
    {
      r := ExpByte2(r, z, exponent[i], x, Radix.Value(exponent[..i], 256));
      assert exponent[..i + 1] == exponent[..i] + [exponent[i]];
      Radix.ValueSnoc(exponent[..i], exponent[i], 256);
    }
    assert exponent[..|exponent|] == exponent;
  }

  lemma PowerZero(x: Gaussian)
    ensures Power(x, 0) == UNIT
  {}

  /** The eight bits of one exponent byte. */
  method ExpByte2(r0: Element, z: Element, byte: nat, ghost x: Gaussian, ghost e0: nat) returns (r: Element)
    requires IsElement(z, x) && IsElement(r0, Power(x, e0)) && byte < 256
    ensures IsElement(r, Power(x, e0 * 256 + byte))
  {
    hide IsElement, Power, Times;
    r := r0;
    var bit := 8;
    ghost var e: nat := e0;
    var scale: nat := 256;
    BytePowers();
    while bit > 0
      invariant 0 <= bit <= 8 && scale == Pow(2, bit) > 0
      invariant e * scale + byte % scale == e0 * 256 + byte
      invariant IsElement(r, Power(x, e))
    {
      bit := bit - 1;
      Pow2Positive(bit);
      assert scale == 2 * Pow(2, bit);
      scale := scale / 2;
      BitOfByte(byte, e, scale);
      r := ExpBit2(r, z, (byte / scale) % 2 == 1, x, e);
      e := 2 * e + (byte / scale) % 2;
    }
  }

  method ExpBit2(r0: Element, z: Element, isSet: bool, ghost x: Gaussian, ghost e: nat) returns (r: Element)
    requires IsElement(z, x) && IsElement(r0, Power(x, e))
    ensures IsElement(r, Power(x, 2 * e + if isSet then 1 else 0))
  {
    hide IsElement, Power, Times;
    PowerAdd(x, e, e);
    r := Sqr2(r0, Power(x, e));
    if isSet {
      PowerAdd(x, 2 * e, 1);
      PowerOne(x);
      r := Mul2(r, z, Power(x, 2 * e), x);
    }
  }

  /** Fq2::inv: the conjugate times the inverse of the norm. The negated imaginary part may be
      the limbs of 2p, which the multiplication accepts. */
  method Inv2(z: Element, ghost x: Gaussian) returns (r: Element)
    requires IsElement(z, x)
    ensures IsElement(r, InverseOf(x))
  {
    InverseIs(x);
    hide Represents, InverseOf;
    ghost var a, b := x.re, x.im;
    MontRepresents(z.re, a);
    MontRepresents(z.im, b);
    var re2 := MontMul(z.re, z.re, a, a);
    var im2 := MontMul(z.im, z.im, b, b);
    var norm := MontAdd(re2, im2, a * a, b * b);
    MontRepresents(norm, a * a + b * b);
    var invNorm := Inv(norm, a * a + b * b);
    ghost var v := Pow(a * a + b * b, P - 2);
    MontRepresents(invNorm, v);
    var re := MontMul(z.re, invNorm, a, v);
    var negIm := MontNeg(z.im, b);
    var im := MontMul(negIm, invNorm, -b, v);
    return Element(re, im);
  }

  function Norm(x: Gaussian): int {
    Multiply(x.re, x.re) + Multiply(x.im, x.im)
  }

  lemma InverseIs(x: Gaussian)
    ensures Norm(x) == x.re * x.re + x.im * x.im
    ensures var v := Pow(x.re * x.re + x.im * x.im, P - 2);
            InverseOf(x) == Gaussian(x.re * v, -x.im * v)
  {
    MultiplyIs(x.re, x.re);
    MultiplyIs(x.im, x.im);
    var v := Pow(Norm(x), P - 2);
    MultiplyIs(x.re, v);
    MultiplyIs(-x.im, v);
    hide Multiply;
  }

  // The conjugate times the power of the norm that inverts it modulo p.
  function InverseOf(x: Gaussian): Gaussian {
    var v := Pow(Norm(x), P - 2);
    Gaussian(Multiply(x.re, v), Multiply(-x.im, v))
  }

  lemma {:induction false} OddPowerOfMinusOne(k: nat)
    ensures Pow(-1, 2 * k + 1) == -1
  {
    if k == 0 {
      assert Pow(-1, 1) == -1 * Pow(-1, 0);
    } else {
      OddPowerOfMinusOne(k - 1);
      assert Pow(-1, 2 * k) == -1 * Pow(-1, 2 * k - 1) && Pow(-1, 2 * k + 1) == -1 * Pow(-1, 2 * k);
    }
  }

  lemma SquarePow(a: int, k: nat)
    ensures Pow(a * a, k) == Pow(a, 2 * k)
  {
    assert Pow(a, 2) == a * Pow(a, 1) && Pow(a, 1) == a * Pow(a, 0) == a;
    PowMul(a, 2, k);
  }

  // Modulo a prime that is 3 modulo 4, -1 is not a square.
  lemma SumOfSquares(a: int, b: int, p: int)
    requires IsPrime(p) && p % 4 == 3 && (a * a + b * b) % p == 0
    ensures a % p == 0 && b % p == 0
  {
    RemainderUnique(0, p, 0, 0);
    if a % p != 0 && b % p != 0 {
      var k := (p - 3) / 4;
      var h := 2 * k + 1;
      assert 2 * h == p - 1;
      CongZeroSub(a * a, -(b * b), p);
      CongPow(a * a, -(b * b), h, p);
      SquarePow(a, h);
      SquarePow(b, h);
      Fermat(a, p);
      Fermat(b, p);
      OddPowerOfMinusOne(k);
      assert -(b * b) == -1 * (b * b);
      PowOfProduct(-1, b * b, h);
      CongSub(0, 0, Pow(b, p - 1), 1, p);
      CongZeroSub(1, -1, p);
      RemainderUnique(2, p, 0, 2);
    } else if a % p == 0 {
      SquareRootZero(b, a, p);
    } else {
      SquareRootZero(a, b, p);
    }
  }

  lemma SquareRootZero(a: int, b: int, p: int)
    requires IsPrime(p) && b % p == 0 && (a * a + b * b) % p == 0
    ensures a % p == 0
  {
    RemainderUnique(0, p, 0, 0);
    CongMul(b, 0, b, b, p);
    CongSub(a * a + b * b, 0, b * b, 0, p);
    EuclidLemma(a, a, p);
  }

  /** Every nonzero element times its inverse is one, limb for limb. */
  method InverseTimes2(z: Element, ghost x: Gaussian) returns (one: Element)
    requires IsPrime(P) && IsElement(z, x) && (x.re % P != 0 || x.im % P != 0)
    ensures one == ONE2
  {
    var inv := Inv2(z, x);
    one := Mul2(z, inv, x, InverseOf(x));
    hide Represents, IsMont, InverseOf, Times;
    InverseValue(x);
    OneIsMont();
    ZeroIsMont();
    MontUnique(one.re, ONE_LIMBS, Times(x, InverseOf(x)).re, 1);
    MontUnique(one.im, [0, 0, 0, 0], Times(x, InverseOf(x)).im, 0);
  }

  // A nonzero Gaussian integer times its inverse is 1 modulo p.
  lemma InverseValue(x: Gaussian)
    requires IsPrime(P) && (x.re % P != 0 || x.im % P != 0)
    ensures Cong(Times(x, InverseOf(x)).re, 1, P) && Times(x, InverseOf(x)).im == 0
  {
    var n := x.re * x.re + x.im * x.im;
    InverseIs(x);
    NormAlgebra(x.re, x.im, Pow(n, P - 2));
    TimesIs(x, InverseOf(x));
    if n % P == 0 { SumOfSquares(x.re, x.im, P); }
    FermatInverse(n, P);
    hide InverseOf, Times, Pow, IsPrime;
  }

  lemma ZeroIsMont()
    ensures IsMont([0, 0, 0, 0], 0)
  {
    FourLimbs([0, 0, 0, 0]);
    MontIs([0, 0, 0, 0], 0);
  }

  lemma NormAlgebra(a: int, b: int, v: int)
    ensures a * (a * v) - b * (-b * v) == (a * a + b * b) * v
    ensures a * (-b * v) + b * (a * v) == 0
  {
    assert a * (a * v) == (a * a) * v && b * (-b * v) == -((b * b) * v);
    assert a * (-b * v) == -(a * (b * v)) && b * (a * v) == a * (b * v);
    assert (a * a + b * b) * v == (a * a) * v + (b * b) * v;
  }
}

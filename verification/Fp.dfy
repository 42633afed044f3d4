/** The BN254 base field of zk_verifier.rs: Montgomery arithmetic on four 64-bit limbs. */
module Fp {
  import opened Numbers
  import opened Limbs
  import Radix

  const P_LIMBS: seq<nat> := [0x3c208c16d87cfd47, 0x97816a916871ca8d, 0xb85045b68181585d, 0x30644e72e131a029]
  const P_MINUS_2_LIMBS: seq<nat> := [0x3c208c16d87cfd45, 0x97816a916871ca8d, 0xb85045b68181585d, 0x30644e72e131a029]
  const N0: nat := 0x87d20782e4866389
  const R2_LIMBS: seq<nat> := [0xf32cfc5b538afa89, 0xb5e71911d44501fb, 0x47ab1eff0a417ff6, 0x06d89f71cab8351f]
  const ONE_LIMBS: seq<nat> := [0xd35d438dc58f0d9d, 0x0a78eb28f5c70b3d, 0x666ea36f7879462c, 0x0e0a77c19a07df2f]

  const P: nat := 0x30644e72e131a029b85045b68181585d97816a916871ca8d3c208c16d87cfd47
  const R: nat := 0x1_0000000000000000_0000000000000000_0000000000000000_0000000000000000

  // The inverse of R modulo p, and the quotient of R times it by p.
  const RADIX_INVERSE: nat := 0x2e67157159e5c639cf63e9cfb74492d9eb2022850278edf8ed84884a014afa37
  const RADIX_QUOTIENT: nat := 0xf57a22b791888c6bd8afcbd01833da809ede7d651eca6ac987d20782e4866389

  // A 128-bit accumulator; every value assigned to one is proved to fit.
  type u128 = x: nat | x < 0x1_0000000000000000_0000000000000000

  lemma FourLimbs(ls: seq<nat>)
    requires |ls| >= 4
    ensures LimbValue(ls, 4) == ls[0] + ls[1] * W + ls[2] * (W * W) + ls[3] * (W * W * W)
    ensures Pow(W, 4) == R
  {
    assert Pow(W, 1) == W && Pow(W, 2) == W * W && Pow(W, 3) == W * (W * W) && Pow(W, 4) == W * (W * (W * W));
    assert LimbValue(ls, 1) == ls[0] * Pow(W, 0);
    assert LimbValue(ls, 2) == LimbValue(ls, 1) + ls[1] * Pow(W, 1);
    assert LimbValue(ls, 3) == LimbValue(ls, 2) + ls[2] * Pow(W, 2);
    assert LimbValue(ls, 4) == LimbValue(ls, 3) + ls[3] * Pow(W, 3);
  }

  lemma FieldConstants()
    ensures AreLimbs(P_LIMBS) && LimbValue(P_LIMBS, 4) == P && 4 * P < R
    ensures AreLimbs(ONE_LIMBS) && LimbValue(ONE_LIMBS, 4) == R % P
    ensures AreLimbs(R2_LIMBS) && LimbValue(R2_LIMBS, 4) == (R * R) % P
    ensures AreLimbs(P_MINUS_2_LIMBS) && LimbValue(P_MINUS_2_LIMBS, 4) == P - 2
    ensures Pow(W, 4) == R
  {
    FourLimbs(P_LIMBS);
    FourLimbs(ONE_LIMBS);
    FourLimbs(R2_LIMBS);
    FourLimbs(P_MINUS_2_LIMBS);
    RemainderUnique(R, P, 5, LimbValue(ONE_LIMBS, 4));
    RemainderUnique(R * R, P, 0x54a47462623a04a7ab074a5868073013ae965e1767cd4c086f3aed8a19bf90e51, LimbValue(R2_LIMBS, 4));
  }

  predicate IsFp(f: seq<nat>) {
    |f| == 4 && AreLimbs(f)
  }

  // The value of the raw limbs.
  function Raw(f: seq<nat>): nat
    requires |f| == 4
  {
    LimbValue(f, |f|)
  }

  predicate Canonical(f: seq<nat>) {
    IsFp(f) && Raw(f) < P
  }

  lemma RawBound(f: seq<nat>)
    requires IsFp(f)
    ensures Raw(f) < R
  {
    LimbBound(f, 4);
    FieldConstants();
  }

  // ----- subtraction, addition, negation -----

  /** Fp::sub_raw: subtraction modulo 2^256. */
  method SubRaw(a: seq<nat>, b: seq<nat>) returns (r: seq<nat>)
    requires IsFp(a) && IsFp(b)
    ensures IsFp(r) && Raw(r) == (Raw(a) - Raw(b)) % R
  {
    FieldConstants();
    RawBound(a);
    RawBound(b);
    var out, borrow := SubLimbs(a, b);
    LimbBound(out, 4);
    RemainderUnique(Raw(a) - Raw(b), R, 0 - borrow as int, Raw(out));
    r := out;
  }

  // What Fp::sub does to raw values: a wrapped difference is recomputed from p.
  function SubValue(x: nat, y: nat): nat {
    var d := (x - y) % R;
    if d >= P then (P - (y - x) % R) % R else d
  }

  /** Fp::sub. */
  method Sub(a: seq<nat>, b: seq<nat>) returns (r: seq<nat>)
    requires IsFp(a) && IsFp(b)
    ensures IsFp(r) && Raw(r) == SubValue(Raw(a), Raw(b))
  {
    FieldConstants();
    var d := SubRaw(a, b);
    var wrapped := AtLeast(d, P_LIMBS);
    if wrapped {
      var e := SubRaw(b, a);
      r := SubRaw(P_LIMBS, e);
    } else {
      r := d;
    }
  }

  /** Subtraction is exact on canonical operands. */
  lemma SubCanonical(x: nat, y: nat)
    requires x < P && y < P
    ensures SubValue(x, y) == (x - y) % P
  {
    FieldConstants();
    if x >= y {
      RemainderUnique(x - y, R, 0, x - y);
      RemainderUnique(x - y, P, 0, x - y);
    } else {
      RemainderUnique(x - y, R, -1, R + x - y);
      RemainderUnique(y - x, R, 0, y - x);
      RemainderUnique(P - (y - x), R, 0, P - (y - x));
      RemainderUnique(x - y, P, -1, P + x - y);
    }
  }

  /** Subtracting p: reduces values in [p, 2p), and leaves every value from 2p on unchanged. */
  lemma SubModulus(v: nat)
    requires P <= v < R
    ensures SubValue(v, P) == if v < 2 * P then v - P else v
  {
    FieldConstants();
    RemainderUnique(v - P, R, 0, v - P);
    if v >= 2 * P {
      RemainderUnique(P - v, R, -1, R + P - v);
      RemainderUnique(P - (R + P - v), R, -1, v);
    }
  }

  // One conditional subtraction of p.
  method ReduceOnce(f: seq<nat>) returns (r: seq<nat>)
    requires IsFp(f) && Raw(f) < 2 * P
    ensures Canonical(r) && Raw(r) == Raw(f) % P
  {
    FieldConstants();
    RawBound(f);
    var big := AtLeast(f, P_LIMBS);
    if big {
      SubModulus(Raw(f));
      RemainderUnique(Raw(f), P, 1, Raw(f) - P);
      r := Sub(f, P_LIMBS);
    } else {
      RemainderUnique(Raw(f), P, 0, Raw(f));
      r := f;
    }
  }

  /** Fp::add; the carry out of the top limb is dropped, which canonical operands never produce. */
  method Add(a: seq<nat>, b: seq<nat>) returns (r: seq<nat>)
    requires Canonical(a) && Canonical(b)
    ensures Canonical(r) && Raw(r) == (Raw(a) + Raw(b)) % P
  {
    FieldConstants();
    var out, carry := AddLimbs(a, b);
    assert carry == 0;
    r := ReduceOnce(out);
  }

  /** Fp::neg: the canonical negation exactly when the operand is not 0, and the limbs of 2p for 0. */
  method Neg(a: seq<nat>) returns (r: seq<nat>)
    requires Canonical(a)
    ensures IsFp(r) && Raw(r) == if Raw(a) == 0 then 2 * P else P - Raw(a)
    ensures Canonical(r) <==> Raw(a) != 0
    ensures Agree(Raw(r), 0 - Raw(a) as int, P)
  {
    FieldConstants();
    ghost var x: int := Raw(a);
    r := Sub(P_LIMBS, a);
    if x == 0 {
      RemainderUnique(P, R, 0, P);
      RemainderUnique(0 - P as int, R, -1, R - P);
      RemainderUnique(P - (R - P), R, -1, 2 * P);
      AddMultiple(0, 2, P);
    } else {
      RemainderUnique(P - x, R, 0, P - x);
      AddMultiple(-x, 1, P);
    }
    AgreeIsCong(Raw(r), 0 - x, P);
  }

  // ----- Montgomery multiplication -----

  // Replacing limb k changes the value by the difference at weight W^k.
  lemma {:induction false} LimbUpdate(t: seq<nat>, k: nat, v: nat, n: nat)
    requires k < n <= |t|
    ensures LimbValue(t[k := v], n) == LimbValue(t, n) + (v - t[k]) * Pow(W, k)
  {
    if n - 1 == k {
      LimbPrefix(t, t[k := v], k);
      assert (v - t[k]) * Pow(W, k) == v * Pow(W, k) - t[k] * Pow(W, k);
    } else {
      LimbUpdate(t, k, v, n - 1);
    }
  }

  // One multiply-accumulate column: (cur mod W) stays, the rest is carried one limb up.
  lemma MacStep(told: int, low: int, high: int, x: int, y: int, carry: int, p: int)
    requires low + high * W == told + x * y + carry
    ensures (low - told) * p + high * (W * p) == x * (y * p) + carry * p
  {
    calc {
      (low - told) * p + high * (W * p);
      { assert high * (W * p) == (high * W) * p; }
      (low - told) * p + (high * W) * p;
      (low - told + high * W) * p;
      (x * y + carry) * p;
      (x * y) * p + carry * p;
      { assert (x * y) * p == x * (y * p); }
      x * (y * p) + carry * p;
    }
  }

  // t[i + j] + x * y + carry fits in 128 bits and its carry in 64.
  lemma MacFits(t: nat, x: nat, y: nat, carry: nat)
    requires t < W && x < W && y < W && carry < W
    ensures 0 <= t + x * y + carry < W * W && (t + x * y + carry) / W < W
  {
    MulMonotone(x, W - 1, y);
    MulMonotone(y, W - 1, W - 1);
    var cur := t + x * y + carry;
    assert cur == (cur / W) * W + cur % W;
    Radix.QuotientBelow(cur / W, cur % W, W, W);
  }

  /** One row of both loops: t += x * ys * W^i, returning the carry out of limb i + 3. */
  method MultiplyAccumulate(t0: seq<nat>, x: nat, ys: seq<nat>, i: nat) returns (t: seq<nat>, carry: nat)
    requires |t0| == 8 && AreLimbs(t0) && x < W && IsFp(ys) && i < 4
    ensures |t| == 8 && AreLimbs(t) && carry < W
    ensures forall k :: 0 <= k < i || i + 4 <= k < 8 ==> t[k] == t0[k]
    ensures t[i] == (t0[i] + x * ys[0]) % W
    ensures LimbValue(t, 8) + carry * Pow(W, i + 4) == LimbValue(t0, 8) + x * Raw(ys) * Pow(W, i)
  {
    t, carry := t0, 0;
    for j := 0 to 4
      invariant |t| == 8 && AreLimbs(t) && carry < W && (j == 0 ==> carry == 0)
      invariant forall k :: 0 <= k < i || i + j <= k < 8 ==> t[k] == t0[k]
      invariant j > 0 ==> t[i] == (t0[i] + x * ys[0]) % W
      invariant LimbValue(t, 8) + carry * Pow(W, i + j) == LimbValue(t0, 8) + x * LimbValue(ys, j) * Pow(W, i)
    {
      MacFits(t[i + j], x, ys[j], carry);
      var cur: u128 := t[i + j] + x * ys[j] + carry;
      RowStep(t, x, ys, i, j, carry, LimbValue(t0, 8));
      t := t[i + j := cur % W];
      carry := cur / W;
    }
  }

  lemma RowStep(t: seq<nat>, x: nat, ys: seq<nat>, i: nat, j: nat, carry: nat, base: int)
    requires |t| == 8 && IsFp(ys) && i < 4 && j < 4
    requires LimbValue(t, 8) + carry * Pow(W, i + j) == base + x * LimbValue(ys, j) * Pow(W, i)
    ensures x * ys[j] >= 0
    ensures var cur := t[i + j] + x * ys[j] + carry;
            LimbValue(t[i + j := cur % W], 8) + (cur / W) * Pow(W, i + j + 1)
              == base + x * LimbValue(ys, j + 1) * Pow(W, i)
  {
    MulMonotone(0, x, ys[j]);
    var cur := t[i + j] + x * ys[j] + carry;
    var p := Pow(W, i + j);
    assert cur == (cur / W) * W + cur % W;
    LimbUpdate(t, i + j, cur % W, 8);
    MacStep(t[i + j], cur % W, cur / W, x, ys[j], carry, p);
    PowAdd(W, j, i);
    RowAlgebra(x, LimbValue(ys, j), ys[j], Pow(W, j), Pow(W, i));
  }

  lemma RowAlgebra(x: int, v: int, y: int, pj: int, pi: int)
    ensures x * (v + y * pj) * pi == x * v * pi + x * (y * (pj * pi))
  {
    calc {
      x * (v + y * pj) * pi;
      { assert x * (v + y * pj) == x * v + x * (y * pj); }
      (x * v + x * (y * pj)) * pi;
      x * v * pi + (x * (y * pj)) * pi;
      { assert (x * (y * pj)) * pi == x * ((y * pj) * pi); assert (y * pj) * pi == y * (pj * pi); }
      x * v * pi + x * (y * (pj * pi));
    }
  }

  /** The schoolbook product of the first half of Fp::mul. */
  method Product(a: seq<nat>, b: seq<nat>) returns (t: seq<nat>)
    requires IsFp(a) && IsFp(b)
    ensures |t| == 8 && AreLimbs(t) && LimbValue(t, 8) == Raw(a) * Raw(b)
  {
    t := seq(8, _ => 0);
    ZeroLimbs(t, 8);
    for i := 0 to 4
      invariant |t| == 8 && AreLimbs(t)
      invariant forall k :: i + 4 <= k < 8 ==> t[k] == 0
      invariant LimbValue(t, 8) == LimbValue(a, i) * Raw(b)
    {
      var t', carry := MultiplyAccumulate(t, a[i], b, i);
      LimbUpdate(t', i + 4, carry, 8);
      ProductRow(LimbValue(a, i), a[i], Raw(b), Pow(W, i));
      t := t'[i + 4 := carry];
    }
  }

  lemma ProductRow(v: int, x: int, b: int, p: int)
    ensures v * b + x * b * p == (v + x * p) * b
  {
    assert x * b * p == (x * p) * b;
    assert (v + x * p) * b == v * b + (x * p) * b;
  }

  lemma {:induction false} ZeroLimbs(t: seq<nat>, n: nat)
    requires n <= |t| && forall k :: 0 <= k < n ==> t[k] == 0
    ensures LimbValue(t, n) == 0
  {
    if n != 0 { ZeroLimbs(t, n - 1); }
  }

  // k = t * N0 makes t + k * p0 divisible by 2^64.
  lemma ReductionDigit(t: nat)
    ensures var k := (t * N0) % W;
            (t + k * P_LIMBS[0]) % W == 0
  {
    var k := (t * N0) % W;
    var p0 := P_LIMBS[0];
    CongMod(t * N0, W);
    CongMul(k, t * N0, p0, p0, W);
    CongAdd(t, t, k * p0, (t * N0) * p0, W);
    assert 1 + N0 * p0 == 0x1fe67e5698efd0cc * W;
    assert t + (t * N0) * p0 == (t * 0x1fe67e5698efd0cc) * W by {
      assert (t * N0) * p0 == t * (N0 * p0);
      assert t * (1 + N0 * p0) == t * (0x1fe67e5698efd0cc * W);
    }
    AddMultiple(0, t * 0x1fe67e5698efd0cc, W);
  }

  /** The final carry of a reduction row, rippled upwards; it never leaves the top limb. */
  method Ripple(t0: seq<nat>, start: nat, carry: nat, ghost total: int) returns (t: seq<nat>)
    requires |t0| == 8 && AreLimbs(t0) && 4 <= start < 8 && carry < W
    requires LimbValue(t0, 8) + carry * Pow(W, start) == total < Pow(W, 8)
    ensures |t| == 8 && AreLimbs(t) && LimbValue(t, 8) == total
    ensures forall k :: 0 <= k < start ==> t[k] == t0[k]
  {
    t := t0;
    var idx: nat, c: nat := start, carry;
    while c != 0 && idx < 8
      invariant start <= idx <= 8 && |t| == 8 && AreLimbs(t) && c < W
      invariant forall k :: 0 <= k < start ==> t[k] == t0[k]
      invariant LimbValue(t, 8) + c * Pow(W, idx) == total
      decreases 8 - idx
    {
      var cur: u128 := t[idx] + c;
      assert cur == (cur / W) * W + cur % W;
      LimbUpdate(t, idx, cur % W, 8);
      MacStep(t[idx], cur % W, cur / W, 0, 0, c, Pow(W, idx));
      t := t[idx := cur % W];
      c := cur / W;
      idx := idx + 1;
    }
    if c != 0 { MulMonotone(1, c, Pow(W, 8)); }
  }

  lemma PowerEight()
    ensures Pow(W, 8) == R * R
  {
    FieldConstants();
    PowAdd(W, 4, 4);
  }

  /** The reduction half of Fp::mul: four rows that clear the low limbs by multiples of p. */
  method MontgomeryReduce(t0: seq<nat>) returns (t: seq<nat>, ghost m: nat)
    requires |t0| == 8 && AreLimbs(t0) && LimbValue(t0, 8) <= 4 * P * P
    ensures |t| == 8 && AreLimbs(t) && m < R
    ensures forall k :: 0 <= k < 4 ==> t[k] == 0
    ensures LimbValue(t, 8) == LimbValue(t0, 8) + m * P
  {
    FieldConstants();
    PowerEight();
    t, m := t0, 0;
    for i := 0 to 4
      invariant |t| == 8 && AreLimbs(t) && m < Pow(W, i)
      invariant forall k :: 0 <= k < i ==> t[k] == 0
      invariant LimbValue(t, 8) == LimbValue(t0, 8) + m * P
    {
      var k := (t[i] * N0) % W;
      ReductionDigit(t[i]);
      var t', carry := MultiplyAccumulate(t, k, P_LIMBS, i);
      ghost var m' := m + k * Pow(W, i);
      ReductionBound(m, k, i);
      ReductionTotal(LimbValue(t0, 8), m, k, Pow(W, i), m');
      t := Ripple(t', i + 4, carry, LimbValue(t0, 8) + m' * P);
      m := m';
    }
  }

  lemma ReductionBound(m: nat, k: nat, i: nat)
    requires m < Pow(W, i) && k < W && i < 4
    ensures 0 <= m + k * Pow(W, i) < Pow(W, i + 1) <= R
  {
    MulMonotone(k + 1, W, Pow(W, i));
    assert (k + 1) * Pow(W, i) == k * Pow(W, i) + Pow(W, i);
    LimbNonnegative(k, i);
    FieldConstants();
    PowAdd(W, i + 1, 3 - i);
    PowPositive(W, 3 - i);
    PowPositive(W, i + 1);
    MulMonotone(1, Pow(W, 3 - i), Pow(W, i + 1));
  }

  // The total after a row: the product plus m' * p, below 2^512.
  lemma ReductionTotal(v: int, m: int, k: int, p: int, m': int)
    requires 0 <= v <= 4 * P * P && m' == m + k * p && 0 <= m' < R
    ensures v + m * P + k * P * p == v + m' * P && v + m' * P < R * R
  {
    assert (m + k * p) * P == m * P + (k * p) * P;
    assert (k * p) * P == k * P * p;
    MulMonotone(m', R, P);
    assert 4 * P * P + R * P < R * R;
  }

  // Limbs 4 to 7 of a product whose low limbs are 0.
  lemma HighHalf(t: seq<nat>)
    requires |t| == 8 && AreLimbs(t) && forall k :: 0 <= k < 4 ==> t[k] == 0
    ensures LimbValue(t, 8) == R * LimbValue(t[4..], 4)
  {
    ZeroLimbs(t, 4);
    HighLimbs(t, 4);
    FieldConstants();
  }

  lemma {:induction false} HighLimbs(t: seq<nat>, n: nat)
    requires |t| == 8 && n <= 4 && LimbValue(t, 4) == 0
    ensures LimbValue(t, 4 + n) == Pow(W, 4) * LimbValue(t[4..], n)
  {
    if n != 0 {
      HighLimbs(t, n - 1);
      PowAdd(W, 4, n - 1);
      ShiftAlgebra(Pow(W, 4), Pow(W, n - 1), t[4 + n - 1], LimbValue(t[4..], n - 1));
      hide Pow;
    }
  }

  lemma ShiftAlgebra(p: int, q: int, d: int, v: int)
    ensures p * v + d * (p * q) == p * (v + d * q)
  {
    assert d * (p * q) == p * (d * q);
    assert p * (v + d * q) == p * v + p * (d * q);
  }

  /** Fp::mul on limbs of value at most 2p: the canonical representative of a * b / R. */
  method Mul(a: seq<nat>, b: seq<nat>) returns (r: seq<nat>)
    requires IsFp(a) && IsFp(b) && Raw(a) <= 2 * P && Raw(b) <= 2 * P
    ensures Canonical(r) && Agree(Raw(r) * R, Multiply(Raw(a), Raw(b)), P)
  {
    FieldConstants();
    MulMonotone(Raw(a), 2 * P, Raw(b));
    MulMonotone(Raw(b), 2 * P, 2 * P);
    var product := Product(a, b);
    var t, m := MontgomeryReduce(product);
    HighHalf(t);
    var res := t[4..];
    assert Raw(res) < 2 * P by {
      MulMonotone(m, R, P);
      assert R * Raw(res) <= 4 * P * P + R * P < R * (2 * P);
      Radix.QuotientBelow(Raw(res), 0, R, 2 * P);
    }
    r := ReduceOnce(res);
    CongMod(Raw(res), P);
    CongMul(Raw(r), Raw(res), R, R, P);
    CongFromMultiple(R * Raw(res), Raw(a) * Raw(b), m, P);
    MultiplyIs(Raw(a), Raw(b));
    AgreeIsCong(Raw(r) * R, Raw(a) * Raw(b), P);
  }

  // ----- the field that Montgomery form represents -----

  // f is the canonical Montgomery form of x.
  ghost predicate IsMont(f: seq<nat>, x: int) {
    Canonical(f) && Agree(Raw(f), x * R, P)
  }

  // f represents x, possibly by limbs up to 2p, as Neg returns for 0.
  ghost predicate Represents(f: seq<nat>, x: int) {
    IsFp(f) && Raw(f) <= 2 * P && Agree(Raw(f), x * R, P)
  }

  lemma MontIs(f: seq<nat>, x: int)
    ensures IsMont(f, x) <==> Canonical(f) && Cong(Raw(f), x * R, P)
  {
    if Canonical(f) { AgreeIsCong(Raw(f), x * R, P); }
  }

  // R has an inverse modulo p (an odd modulus), so it cancels without assuming p prime.
  lemma RadixCancel(a: int, b: int)
    requires Cong(a * R, b * R, P)
    ensures Cong(a, b, P)
  {
    var inv: int := RADIX_INVERSE;
    assert R * inv == 1 + RADIX_QUOTIENT * P;
    CongFromMultiple(R * inv, 1, RADIX_QUOTIENT, P);
    CongMul(a * R, b * R, inv, inv, P);
    CongMul(a, a, R * inv, 1, P);
    CongMul(b, b, R * inv, 1, P);
    assert (a * R) * inv == a * (R * inv) && (b * R) * inv == b * (R * inv);
  }

  // Canonical forms of congruent values are equal.
  lemma MontUnique(f: seq<nat>, g: seq<nat>, x: int, y: int)
    requires IsMont(f, x) && IsMont(g, y) && Cong(x, y, P)
    ensures f == g
  {
    MontIs(f, x);
    MontIs(g, y);
    CongMul(x, y, R, R, P);
    RemainderUnique(Raw(f), P, 0, Raw(f));
    RemainderUnique(Raw(g), P, 0, Raw(g));
    LimbsUnique(f, g);
  }

  /** Multiplication of representatives multiplies the values they represent. */
  method MontMul(a: seq<nat>, b: seq<nat>, ghost x: int, ghost y: int) returns (r: seq<nat>)
    requires Represents(a, x) && Represents(b, y)
    ensures IsMont(r, x * y)
  {
    r := Mul(a, b);
    MontProduct(Raw(r), Raw(a), Raw(b), x, y);
  }

  lemma MontProduct(r: int, a: int, b: int, x: int, y: int)
    requires Agree(r * R, Multiply(a, b), P) && Agree(a, x * R, P) && Agree(b, y * R, P)
    ensures Agree(r, (x * y) * R, P)
  {
    hide Agree;
    MultiplyIs(a, b);
    AgreeIsCong(r * R, a * b, P);
    AgreeIsCong(a, x * R, P);
    AgreeIsCong(b, y * R, P);
    AgreeIsCong(r, (x * y) * R, P);
    CongMul(a, x * R, b, y * R, P);
    MulShuffle(x, R, y, R);
    assert (x * y) * (R * R) == ((x * y) * R) * R;
    RadixCancel(r, (x * y) * R);
  }

  /** Adding canonical Montgomery forms adds the values. */
  method MontAdd(a: seq<nat>, b: seq<nat>, ghost x: int, ghost y: int) returns (r: seq<nat>)
    requires IsMont(a, x) && IsMont(b, y)
    ensures IsMont(r, x + y)
  {
    r := Add(a, b);
    CongMod(Raw(a) + Raw(b), P);
    MontIs(a, x);
    MontIs(b, y);
    CongAdd(Raw(a), x * R, Raw(b), y * R, P);
    assert (x + y) * R == x * R + y * R;
    MontIs(r, x + y);
  }

  /** Subtracting canonical Montgomery forms subtracts the values. */
  method MontSub(a: seq<nat>, b: seq<nat>, ghost x: int, ghost y: int) returns (r: seq<nat>)
    requires IsMont(a, x) && IsMont(b, y)
    ensures IsMont(r, x - y)
  {
    r := Sub(a, b);
    SubCanonical(Raw(a), Raw(b));
    CongMod(Raw(a) - Raw(b), P);
    MontIs(a, x);
    MontIs(b, y);
    CongSub(Raw(a), x * R, Raw(b), y * R, P);
    assert (x - y) * R == x * R - y * R;
    MontIs(r, x - y);
  }

  /** Negation keeps the value right for every operand, 0 included. */
  method MontNeg(a: seq<nat>, ghost x: int) returns (r: seq<nat>)
    requires IsMont(a, x)
    ensures Represents(r, -x)
  {
    r := Neg(a);
    MontIs(a, x);
    AgreeIsCong(Raw(r), 0 - Raw(a) as int, P);
    CongSub(0, 0, Raw(a), x * R, P);
    assert (-x) * R == 0 - x * R;
    AgreeIsCong(Raw(r), -x * R, P);
  }

  lemma OneIsMont()
    ensures IsMont(ONE_LIMBS, 1)
  {
    FieldConstants();
    CongMod(R, P);
    MontIs(ONE_LIMBS, 1);
  }

  // ----- inversion -----

  lemma MontRepresents(f: seq<nat>, x: int)
    requires IsMont(f, x)
    ensures Represents(f, x)
  {}

  /** Fp::inv: square and multiply over the 256 bits of p - 2, least significant first. */
  method Inv(a: seq<nat>, ghost x: int) returns (r: seq<nat>)
    requires Represents(a, x)
    ensures IsMont(r, Pow(x, P - 2))
  {
    hide IsMont, Represents;
    FieldConstants();
    OneIsMont();
    r := ONE_LIMBS;
    var basePow := a;
    ghost var done: nat, power: nat := 0, 1;
    assert Pow(x, 1) == x * Pow(x, 0) == x;
    for i := 0 to 4
      invariant done == LimbValue(P_MINUS_2_LIMBS, i) && power == Pow(W, i)
      invariant IsMont(r, Pow(x, done)) && Represents(basePow, Pow(x, power))
    {
      r, basePow := InvLimb(r, basePow, P_MINUS_2_LIMBS[i], x, done, power);
      done, power := done + P_MINUS_2_LIMBS[i] * power, power * W;
      assert power == W * Pow(W, i);
    }
  }

  /** The inner loop of Fp::inv over the 64 bits of one limb. */
  method InvLimb(r0: seq<nat>, base0: seq<nat>, limb0: nat, ghost x: int, ghost done: nat, ghost power: nat)
    returns (r: seq<nat>, basePow: seq<nat>)
    requires limb0 < W && IsMont(r0, Pow(x, done)) && Represents(base0, Pow(x, power))
    ensures limb0 * power >= 0 && power * W >= 0
    ensures IsMont(r, Pow(x, done + limb0 * power)) && Represents(basePow, Pow(x, power * W))
  {
    hide IsMont, Represents;
    r, basePow := r0, base0;
    var limb := limb0;
    ghost var e: nat, b: nat := done, power;
    MulMonotone(0, limb0, power);
    BytePowers();
    for k := 0 to 64
      invariant 0 <= limb < Pow(2, 64 - k)
      invariant e + limb * b == done + limb0 * power && b == power * Pow(2, k)
      invariant IsMont(r, Pow(x, e)) && Represents(basePow, Pow(x, b))
    {
      InvBit(limb, b, power, k);
      if limb % 2 == 1 {
        r := MultiplyPower(r, basePow, x, e, b);
        e := e + b;
      }
      basePow := SquarePowerMont(basePow, x, b);
      b := 2 * b;
      limb := limb / 2;
    }
    assert Pow(2, 0) == 1 && limb == 0;
  }

  lemma InvBit(limb: nat, b: nat, power: nat, k: nat)
    requires k < 64 && limb < Pow(2, 64 - k) && b == power * Pow(2, k)
    ensures limb / 2 < Pow(2, 63 - k) && 2 * b == power * Pow(2, k + 1)
    ensures limb * b == (limb / 2) * (2 * b) + if limb % 2 == 1 then b else 0
  {
    var half, bit := limb / 2, limb % 2;
    assert limb == 2 * half + bit;
    Radix.QuotientBelow(half, bit, 2, Pow(2, 63 - k));
    assert (2 * half + bit) * b == half * (2 * b) + bit * b;
    assert power * (2 * Pow(2, k)) == 2 * (power * Pow(2, k));
  }

  method MultiplyPower(r0: seq<nat>, basePow: seq<nat>, ghost x: int, ghost e: nat, ghost b: nat) returns (r: seq<nat>)
    requires IsMont(r0, Pow(x, e)) && Represents(basePow, Pow(x, b))
    ensures IsMont(r, Pow(x, e + b))
  {
    hide IsMont, Represents;
    MontRepresents(r0, Pow(x, e));
    r := MontMul(r0, basePow, Pow(x, e), Pow(x, b));
    PowAdd(x, e, b);
  }

  method SquarePowerMont(basePow: seq<nat>, ghost x: int, ghost b: nat) returns (r: seq<nat>)
    requires Represents(basePow, Pow(x, b))
    ensures IsMont(r, Pow(x, 2 * b)) && Represents(r, Pow(x, 2 * b))
  {
    hide IsMont, Represents;
    r := MontMul(basePow, basePow, Pow(x, b), Pow(x, b));
    PowAdd(x, b, b);
    MontRepresents(r, Pow(x, 2 * b));
  }

  /** The inverse really is one: the product is the Montgomery form of 1, limb for limb. */
  method InverseTimes(a: seq<nat>, ghost x: int) returns (one: seq<nat>)
    requires IsPrime(P) && Represents(a, x) && x % P != 0
    ensures one == ONE_LIMBS
  {
    var inv := Inv(a, x);
    one := MontMul(a, inv, x, Pow(x, P - 2));
    FermatInverse(x, P);
    OneIsMont();
    MontUnique(one, ONE_LIMBS, x * Pow(x, P - 2), 1);
  }

  // ----- bytes -----

  ghost predicate IsBytes32(bs: seq<nat>) {
    |bs| == 32 && Radix.AreDigits(bs, 256)
  }

  // Eight big-endian bytes as one limb, shifted in one by one.
  method ReadLimb(bs: seq<nat>, i: nat) returns (v: nat)
    requires IsBytes32(bs) && i < 4
    ensures v == Radix.Value(bs[i * 8..i * 8 + 8], 256) && v < W
  {
    v := 0;
    for j := 0 to 8
      invariant v == Radix.Value(bs[i * 8..i * 8 + j], 256)
    {
      assert bs[i * 8..i * 8 + j + 1] == bs[i * 8..i * 8 + j] + [bs[i * 8 + j]];
      Radix.ValueSnoc(bs[i * 8..i * 8 + j], bs[i * 8 + j], 256);
      v := v * 256 + bs[i * 8 + j];
    }
    Radix.ValueBound(bs[i * 8..i * 8 + 8], 256);
    BytePowers();
  }

  // The four chunks of a 32-byte number.
  lemma ChunkValues(bs: seq<nat>)
    requires IsBytes32(bs)
    ensures Radix.Value(bs, 256) == Radix.Value(bs[24..32], 256) + Radix.Value(bs[16..24], 256) * W
              + Radix.Value(bs[8..16], 256) * (W * W) + Radix.Value(bs[0..8], 256) * (W * W * W)
  {
    hide Radix.Value;
    BytePowers();
    PowMul(256, 8, 2);
    PowMul(256, 8, 3);
    assert Pow(W, 2) == W * W && Pow(W, 3) == W * (W * W);
    assert bs == bs[..8] + bs[8..] && bs[8..] == bs[8..16] + bs[16..] && bs[16..] == bs[16..24] + bs[24..];
    Radix.ValueConcat(bs[..8], bs[8..], 256);
    Radix.ValueConcat(bs[8..16], bs[16..], 256);
    Radix.ValueConcat(bs[16..24], bs[24..], 256);
    assert bs[..8] == bs[0..8] && bs[24..] == bs[24..32];
  }

  /** Fp::from_be_bytes. Its reduction loop subtracts p while the value is at least p; by
      SubModulus it makes progress exactly for values below 2p, which is required here. */
  method FromBeBytes(bs: seq<nat>) returns (r: seq<nat>)
    requires IsBytes32(bs) && Radix.Value(bs, 256) < 2 * P
    ensures IsMont(r, Radix.Value(bs, 256))
  {
    FieldConstants();
    ghost var v := Radix.Value(bs, 256);
    var f := ReadLimbs(bs);
    var big := AtLeast(f, P_LIMBS);
    hide Cong, Raw, SubValue, Radix.Value, IsBytes32;
    while big
      invariant IsFp(f) && Raw(f) < 2 * P && Cong(Raw(f), v, P)
      invariant big <==> Raw(f) >= P
      decreases Raw(f)
    {
      RawBound(f);
      ReduceStep(Raw(f), v);
      f := Sub(f, P_LIMBS);
      big := AtLeast(f, P_LIMBS);
    }
    r := Mul(f, R2_LIMBS);
    EnterMontgomery(Raw(r), Raw(f), v);
  }

  /** The four limbs of 32 big-endian bytes. */
  method ReadLimbs(bs: seq<nat>) returns (f: seq<nat>)
    requires IsBytes32(bs)
    ensures IsFp(f) && Raw(f) == Radix.Value(bs, 256)
  {
    var l3 := ReadLimb(bs, 0);
    var l2 := ReadLimb(bs, 1);
    var l1 := ReadLimb(bs, 2);
    var l0 := ReadLimb(bs, 3);
    f := [l0, l1, l2, l3];
    ChunkValues(bs);
    FourLimbs(f);
  }

  // One subtraction of p from a value between p and 2p.
  lemma ReduceStep(f: nat, v: int)
    requires P <= f < 2 * P && Cong(f, v, P)
    ensures SubValue(f, P) == f - P && Cong(f - P, v, P)
  {
    SubModulus(f);
    AddMultiple(f - P, 1, P);
  }

  lemma EnterMontgomery(r: int, f: int, v: int)
    requires Agree(r * R, Multiply(f, (R * R) % P), P) && Cong(f, v, P)
    ensures Agree(r, v * R, P)
  {
    hide Agree;
    MultiplyIs(f, (R * R) % P);
    AgreeIsCong(r * R, f * ((R * R) % P), P);
    AgreeIsCong(r, v * R, P);
    CongMod(R * R, P);
    CongMul(f, v, (R * R) % P, R * R, P);
    assert v * (R * R) == (v * R) * R;
    RadixCancel(r, v * R);
  }

  /** Fp::from_u64. */
  method FromU64(v: nat) returns (r: seq<nat>)
    requires v < W
    ensures IsMont(r, v)
  {
    FieldConstants();
    FourLimbs([v, 0, 0, 0]);
    assert Raw([v, 0, 0, 0]) == v && Cong(v, v, P);
    hide Cong, Raw;
    r := Mul([v, 0, 0, 0], R2_LIMBS);
    EnterMontgomery(Raw(r), v, v);
  }

  /** Fp::to_be_bytes: multiply by the raw 1, then write each limb from its low byte up. */
  method ToBeBytes(f: seq<nat>, ghost x: nat) returns (out: seq<nat>)
    requires IsMont(f, x) && x < P
    ensures IsBytes32(out) && Radix.Value(out, 256) == x
  {
    var one := [1, 0, 0, 0];
    FourLimbs(one);
    var norm := Mul(f, one);
    MontIs(f, x);
    MultiplyIs(Raw(f), 1);
    AgreeIsCong(Raw(norm) * R, Raw(f), P);
    RadixCancel(Raw(norm), x) by { assert Cong(Raw(norm) * R, x * R, P); }
    RemainderUnique(Raw(norm), P, 0, Raw(norm));
    RemainderUnique(x, P, 0, x);
    var c0 := WriteLimb(norm[0]);
    var c1 := WriteLimb(norm[1]);
    var c2 := WriteLimb(norm[2]);
    var c3 := WriteLimb(norm[3]);
    out := c3 + c2 + c1 + c0;
    assert out[0..8] == c3 && out[8..16] == c2 && out[16..24] == c1 && out[24..32] == c0;
    ChunkValues(out);
    FourLimbs(norm);
  }

  /** Byte j of a limb is (limb >> 8j) mod 256, placed from the right. */
  method WriteLimb(limb: nat) returns (c: seq<nat>)
    requires limb < W
    ensures |c| == 8 && Radix.AreDigits(c, 256) && Radix.Value(c, 256) == limb
  {
    c := [];
    var rest: nat := limb;
    BytePowers();
    assert Pow(256, 0) == 1;
    for j := 0 to 8
      invariant |c| == j && Radix.AreDigits(c, 256) && rest < Pow(256, 8 - j)
      invariant rest * Pow(256, j) + Radix.Value(c, 256) == limb
    {
      WriteStep(rest, c, j);
      c := [rest % 256] + c;
      rest := rest / 256;
    }
    assert rest == 0;
  }

  lemma WriteStep(rest: nat, c: seq<nat>, j: nat)
    requires |c| == j < 8 && rest < Pow(256, 8 - j)
    ensures rest / 256 < Pow(256, 7 - j)
    ensures (rest / 256) * Pow(256, j + 1) + Radix.Value([rest % 256] + c, 256) == rest * Pow(256, j) + Radix.Value(c, 256)
  {
    var q, d, p := rest / 256, rest % 256, Pow(256, j);
    assert rest == q * 256 + d;
    Radix.QuotientBelow(q, d, 256, Pow(256, 7 - j));
    Radix.ValueConcat([d], c, 256);
    assert [d][..0] == [] && Radix.Value([d], 256) == d;
    ByteShift(q, d, p);
  }

  lemma ByteShift(q: int, d: int, p: int)
    ensures q * (256 * p) + d * p == (q * 256 + d) * p
  {
    assert q * (256 * p) == (q * 256) * p;
  }

  /** The byte round trip, for every value the decoder can read. */
  method BytesRoundTrip(bs: seq<nat>) returns (out: seq<nat>)
    requires IsBytes32(bs) && Radix.Value(bs, 256) < 2 * P
    ensures IsBytes32(out) && Radix.Value(out, 256) == Radix.Value(bs, 256) % P
    ensures Radix.Value(bs, 256) < P ==> out == bs
  {
    ghost var v := Radix.Value(bs, 256);
    var f := FromBeBytes(bs);
    CongMod(v, P);
    CongMul(v % P, v, R, R, P);
    MontIs(f, v);
    MontIs(f, v % P);
    out := ToBeBytes(f, v % P);
    if v < P {
      RemainderUnique(v, P, 0, v);
      Radix.PadDigitsValue(bs, 256);
      Radix.PadDigitsValue(out, 256);
    }
  }

  /** Fp::exp_bytes: square and multiply over big-endian bytes, most significant bit first. */
  method ExpBytes(a: seq<nat>, exponent: seq<nat>, ghost x: int) returns (r: seq<nat>)
    requires IsMont(a, x) && Radix.AreDigits(exponent, 256)
    ensures IsMont(r, Pow(x, Radix.Value(exponent, 256)))
  {
    OneIsMont();
    r := ONE_LIMBS;
    for i := 0 to |exponent|
      invariant IsMont(r, Pow(x, Radix.Value(exponent[..i], 256)))
    {
      r := ExpByte(r, a, exponent[i], x, Radix.Value(exponent[..i], 256));
      assert exponent[..i + 1] == exponent[..i] + [exponent[i]];
      Radix.ValueSnoc(exponent[..i], exponent[i], 256);
    }
    assert exponent[..|exponent|] == exponent;
  }

  /** The eight bits of one exponent byte. */
  method ExpByte(r0: seq<nat>, a: seq<nat>, byte: nat, ghost x: int, ghost e0: nat) returns (r: seq<nat>)
    requires IsMont(a, x) && IsMont(r0, Pow(x, e0)) && byte < 256
    ensures IsMont(r, Pow(x, e0 * 256 + byte))
  {
    hide IsMont, Represents;
    r := r0;
    var bit := 8;
    ghost var e: nat := e0;
    var scale: nat := 256;
    BytePowers();
    MontRepresents(a, x);
    while bit > 0
      invariant 0 <= bit <= 8 && scale == Pow(2, bit) > 0
      invariant e * scale + byte % scale == e0 * 256 + byte
      invariant IsMont(r, Pow(x, e))
    {
      bit := bit - 1;
      Pow2Positive(bit);
      assert scale == 2 * Pow(2, bit);
      scale := scale / 2;
      BitOfByte(byte, e, scale);
      MontRepresents(r, Pow(x, e));
      r := SquarePowerMont(r, x, e);
      e := 2 * e;
      if (byte / scale) % 2 == 1 {
        MontRepresents(r, Pow(x, e));
        r := MontMul(r, a, Pow(x, e), x);
        assert Pow(x, e) * x == Pow(x, e + 1);
        e := e + 1;
      }
    }
  }

  lemma Pow2Positive(b: nat)
    ensures Pow(2, b) > 0
  {
    PowPositive(2, b);
  }

  lemma Doubled(q: int, bit: int, half: int, r: int)
    ensures (2 * q + bit) * half + r == q * (2 * half) + (bit * half + r)
  {
    assert (2 * q + bit) * half == (2 * q) * half + bit * half;
    assert (2 * q) * half == q * (2 * half);
  }

  // The bit above the low part of a number.
  lemma BitOfByte(n: nat, e: nat, half: nat)
    requires half > 0
    ensures var bit := (n / half) % 2;
            e * (2 * half) + n % (2 * half) == (2 * e + bit) * half + n % half
  {
    var q, r := n / half, n % half;
    var bit := q % 2;
    var low := bit * half + r;
    Doubled(q / 2, bit, half, r);
    Doubled(e, bit, half, r);
    LowPart(bit, half, r);
    TopPart(n, half, q, r, bit);
    RemainderUnique(n, 2 * half, q / 2, low);
  }

  lemma LowPart(bit: nat, half: nat, r: nat)
    requires bit < 2 && r < half
    ensures bit * half + r < 2 * half
  {
    if bit == 0 {} else {}
  }

  lemma TopPart(n: nat, half: nat, q: nat, r: nat, bit: nat)
    requires half > 0 && q == n / half && r == n % half && bit == q % 2
    ensures n == (2 * (q / 2) + bit) * half + r
  {
    assert q == 2 * (q / 2) + bit;
  }
}

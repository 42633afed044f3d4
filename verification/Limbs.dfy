/** Little-endian 64-bit limbs: the carry, borrow and comparison loops of the Rust contract. */
module Limbs {
  import opened Numbers

  const W: nat := 0x1_0000_0000_0000_0000

  // Powers of two that the byte and bit loops need.
  lemma BytePowers()
    ensures Pow(2, 8) == 256 && Pow(256, 8) == W && Pow(2, 64) == W
  {
    assert Pow(2, 2) == 2 * Pow(2, 1) && Pow(2, 1) == 2 * Pow(2, 0);
    PowAdd(2, 2, 2);
    PowAdd(2, 4, 4);
    assert Pow(256, 2) == 256 * Pow(256, 1) && Pow(256, 1) == 256 * Pow(256, 0);
    PowAdd(256, 2, 2);
    PowAdd(256, 4, 4);
    PowMul(2, 8, 8);
  }

  // The value of the n low limbs.
  function LimbValue(ls: seq<nat>, n: nat): nat
    requires n <= |ls|
  {
    if n == 0 then 0 else
      LimbNonnegative(ls[n - 1], n - 1);
      LimbValue(ls, n - 1) + ls[n - 1] * Pow(W, n - 1)
  }

  lemma LimbNonnegative(d: nat, k: nat)
    ensures d * Pow(W, k) >= 0
  {
    PowPositive(W, k);
    MulMonotone(0, d, Pow(W, k));
  }

  predicate AreLimbs(ls: seq<nat>) {
    forall i :: 0 <= i < |ls| ==> ls[i] < W
  }

  lemma {:induction false} LimbBound(ls: seq<nat>, n: nat)
    requires AreLimbs(ls) && n <= |ls|
    ensures LimbValue(ls, n) < Pow(W, n)
  {
    if n != 0 {
      LimbBound(ls, n - 1);
      MulMonotone(ls[n - 1] + 1, W, Pow(W, n - 1));
      assert (ls[n - 1] + 1) * Pow(W, n - 1) == ls[n - 1] * Pow(W, n - 1) + Pow(W, n - 1);
    }
  }

  lemma {:induction false} LimbPrefix(xs: seq<nat>, ys: seq<nat>, n: nat)
    requires n <= |xs| && n <= |ys| && forall i :: 0 <= i < n ==> xs[i] == ys[i]
    ensures LimbValue(xs, n) == LimbValue(ys, n)
  {
    if n != 0 { LimbPrefix(xs, ys, n - 1); }
  }

  // One column of an addition or subtraction, scaled by its weight.
  lemma ColumnScaled(x: int, a: int, b: int, cin: int, cout: int, p: int)
    requires x + cout * W == a + b + cin
    ensures x * p + cout * (W * p) == a * p + b * p + cin * p
  {
    calc {
      x * p + cout * (W * p);
      { assert cout * (W * p) == (cout * W) * p; }
      x * p + (cout * W) * p;
      (x + cout * W) * p;
      (a + b + cin) * p;
      a * p + b * p + cin * p;
    }
  }

  /** The carry loop: column sums in 128 bits, truncated to 64. */
  method AddLimbs(a: seq<nat>, b: seq<nat>) returns (out: seq<nat>, carry: nat)
    requires |a| == |b| && AreLimbs(a) && AreLimbs(b)
    ensures |out| == |a| && AreLimbs(out) && carry <= 1
    ensures LimbValue(out, |a|) + carry * Pow(W, |a|) == LimbValue(a, |a|) + LimbValue(b, |a|)
  {
    out, carry := [], 0;
    for i := 0 to |a|
      invariant |out| == i && AreLimbs(out) && carry <= 1
      invariant LimbValue(out, i) + carry * Pow(W, i) == LimbValue(a, i) + LimbValue(b, i)
    {
      var sum := a[i] + b[i] + carry;
      ColumnScaled(sum % W, a[i], b[i], carry, sum / W, Pow(W, i));
      LimbPrefix(out, out + [sum % W], i);
      out := out + [sum % W];
      carry := sum / W;
    }
  }

  /** The borrow loop: signed column differences, wrapped by 2^64 when negative. */
  method SubLimbs(a: seq<nat>, b: seq<nat>) returns (out: seq<nat>, borrow: nat)
    requires |a| == |b| && AreLimbs(a) && AreLimbs(b)
    ensures |out| == |a| && AreLimbs(out) && borrow <= 1
    ensures LimbValue(out, |a|) + LimbValue(b, |a|) == LimbValue(a, |a|) + borrow * Pow(W, |a|)
  {
    out, borrow := [], 0;
    for i := 0 to |a|
      invariant |out| == i && AreLimbs(out) && borrow <= 1
      invariant LimbValue(out, i) + LimbValue(b, i) == LimbValue(a, i) + borrow * Pow(W, i)
    {
      var diff: int := (a[i] - b[i] as int) - borrow as int;
      var o: nat := if diff < 0 then diff + W else diff;
      var next := if diff < 0 then 1 else 0;
      ColumnScaled(a[i], o, b[i], borrow, next, Pow(W, i));
      LimbPrefix(out, out + [o], i);
      out := out + [o];
      borrow := next;
    }
  }

  // The highest differing limb decides a comparison.
  lemma TopLimbDecides(a: seq<nat>, b: seq<nat>, i: nat, n: nat)
    requires i < n <= |a| == |b| && AreLimbs(a) && AreLimbs(b) && a[i] > b[i]
    requires forall j :: i < j < n ==> a[j] == b[j]
    ensures LimbValue(a, n) > LimbValue(b, n)
  {
    if n - 1 == i {
      LimbBound(b, i);
      var p := Pow(W, i);
      MulMonotone(b[i] + 1, a[i], p);
      assert (b[i] + 1) * p == b[i] * p + p;
    } else {
      TopLimbDecides(a, b, i, n - 1);
    }
  }

  /** The comparison loop, from the top limb down. */
  method AtLeast(a: seq<nat>, b: seq<nat>) returns (ge: bool)
    requires |a| == |b| && AreLimbs(a) && AreLimbs(b)
    ensures ge <==> LimbValue(a, |a|) >= LimbValue(b, |a|)
  {
    var i := |a|;
    while i > 0
      invariant 0 <= i <= |a|
      invariant forall j :: i <= j < |a| ==> a[j] == b[j]
    {
      i := i - 1;
      if a[i] > b[i] {
        TopLimbDecides(a, b, i, |a|);
        return true;
      } else if a[i] < b[i] {
        TopLimbDecides(b, a, i, |a|);
        return false;
      }
    }
    LimbPrefix(a, b, |a|);
    return true;
  }

  ghost predicate TopDifference(a: seq<nat>, b: seq<nat>, i: int)
    requires |a| == |b|
  {
    0 <= i < |a| && a[i] != b[i] && forall j :: i < j < |a| ==> a[j] == b[j]
  }

  // Limb lists of the same length are determined by their values.
  lemma {:induction false} LimbsUnique(a: seq<nat>, b: seq<nat>)
    requires |a| == |b| && AreLimbs(a) && AreLimbs(b) && LimbValue(a, |a|) == LimbValue(b, |b|)
    ensures a == b
  {
    if exists i :: TopDifference(a, b, i) {
      var i :| TopDifference(a, b, i);
      if a[i] > b[i] { TopLimbDecides(a, b, i, |a|); } else { TopLimbDecides(b, a, i, |a|); }
    } else {
      NoDifference(a, b, |a|);
    }
  }

  lemma {:induction false} NoDifference(a: seq<nat>, b: seq<nat>, n: nat)
    requires n <= |a| == |b| && forall j :: n <= j < |a| ==> a[j] == b[j]
    requires forall i :: !TopDifference(a, b, i)
    ensures a == b
  {
    if n != 0 {
      assert !TopDifference(a, b, n - 1);
      NoDifference(a, b, n - 1);
    }
  }
}

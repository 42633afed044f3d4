/** Positional notation, most significant digit first, and its textual forms. */
module Radix {
  import opened Numbers

  const TWO256: nat := 0x1_0000000000000000_0000000000000000_0000000000000000_0000000000000000

  ghost predicate AreDigits(ds: seq<nat>, b: nat) {
    forall i :: 0 <= i < |ds| ==> ds[i] < b
  }

  function Value(ds: seq<nat>, b: nat): nat {
    if ds == [] then 0 else
      var n := |ds| - 1;
      Value(ds[..n], b) * b + ds[n]
  }

  // The digits of n without leading zeros; 0 is the one digit 0.
  function Digits(n: nat, b: nat): (ds: seq<nat>)
    requires b >= 2
    ensures ds != [] && AreDigits(ds, b)
    decreases n
  {
    if n < b then [n] else
      DivSmaller(n, b);
      Digits(n / b, b) + [n % b]
  }

  lemma DivSmaller(n: nat, b: nat)
    requires b >= 2 && n > 0
    ensures 0 <= n / b < n && n == (n / b) * b + n % b
  {
    if n / b >= n {
      MulMonotone(n, n / b, b);
    }
  }

  function Zeros(k: nat): (z: seq<nat>)
    ensures |z| == k && forall i :: 0 <= i < k ==> z[i] == 0
  {
    if k == 0 then [] else Zeros(k - 1) + [0]
  }

  // Zeros in front up to length len; longer inputs are unchanged.
  function Pad(ds: seq<nat>, len: nat): (p: seq<nat>)
    ensures |p| == if |ds| >= len then |ds| else len
  {
    if |ds| >= len then ds else Zeros(len - |ds|) + ds
  }

  lemma ValueSnoc(ds: seq<nat>, d: nat, b: nat)
    ensures Value(ds + [d], b) == Value(ds, b) * b + d
  {
    assert (ds + [d])[..|ds|] == ds;
  }

  lemma ConcatAlgebra(v: int, p: int, w: int, b: int, d: int)
    ensures (v * p + w) * b + d == v * (b * p) + (w * b + d)
  {
    calc {
      (v * p + w) * b;
      (v * p) * b + w * b;
      { assert (v * p) * b == v * (b * p); }
      v * (b * p) + w * b;
    }
  }

  lemma {:induction false} ValueConcat(xs: seq<nat>, ys: seq<nat>, b: nat)
    ensures Value(xs + ys, b) == Value(xs, b) * Pow(b, |ys|) + Value(ys, b)
  {
    if ys == [] {
      assert xs + ys == xs;
      assert Value(xs, b) * 1 == Value(xs, b);
    } else {
      var n := |ys| - 1;
      ValueConcat(xs, ys[..n], b);
      assert (xs + ys)[..|xs + ys| - 1] == xs + ys[..n];
      ConcatAlgebra(Value(xs, b), Pow(b, n), Value(ys[..n], b), b, ys[n]);
    }
  }

  // n / b < p exactly when n < b * p
  lemma QuotientBelow(q: int, r: int, b: int, p: int)
    requires 0 <= r < b
    ensures q < p <==> q * b + r < b * p
  {
    if q < p {
      MulMonotone(q + 1, p, b);
      assert (q + 1) * b == q * b + b;
    } else {
      MulMonotone(p, q, b);
    }
  }

  lemma {:induction false} ValueBound(ds: seq<nat>, b: nat)
    requires AreDigits(ds, b)
    ensures Value(ds, b) < Pow(b, |ds|)
  {
    if ds != [] {
      var n := |ds| - 1;
      ValueBound(ds[..n], b);
      QuotientBelow(Value(ds[..n], b), ds[n], b, Pow(b, n));
    }
  }

  lemma {:induction false} ValueZeros(k: nat, ds: seq<nat>, b: nat)
    ensures Value(Zeros(k) + ds, b) == Value(ds, b)
  {
    ValueConcat(Zeros(k), ds, b);
    if k == 0 {
      assert Value(Zeros(k), b) == 0;
    } else {
      ValueZeros(k - 1, [0], b);
      assert [0][..0] == [];
      assert Value([0], b) == 0 * b + 0;
    }
    assert 0 * Pow(b, |ds|) == 0;
  }

  lemma {:induction false} ValueDigits(n: nat, b: nat)
    requires b >= 2
    ensures Value(Digits(n, b), b) == n
    decreases n
  {
    if n < b {
      assert [n][..0] == [];
      assert Value([n], b) == 0 * b + n;
    } else {
      DivSmaller(n, b);
      ValueDigits(n / b, b);
      ValueSnoc(Digits(n / b, b), n % b, b);
    }
  }

  lemma ValuePad(ds: seq<nat>, len: nat, b: nat)
    ensures Value(Pad(ds, len), b) == Value(ds, b)
  {
    if |ds| < len { ValueZeros(len - |ds|, ds, b); }
  }

  // A digit list is recovered from its value by writing the value and padding to its length.
  lemma {:induction false} PadDigitsValue(ds: seq<nat>, b: nat)
    requires b >= 2 && ds != [] && AreDigits(ds, b)
    ensures |Digits(Value(ds, b), b)| <= |ds|
    ensures Pad(Digits(Value(ds, b), b), |ds|) == ds
  {
    var n := |ds| - 1;
    var init, d := ds[..n], ds[n];
    if n == 0 {
      assert ds == [d] && Value(ds, b) == 0 * b + d;
    } else {
      PadDigitsValue(init, b);
      DigitsSnoc(Value(init, b), d, b);
      assert ds == init + [d];
      PadSnoc(Value(init, b), d, n, b);
    }
  }

  // Appending a digit to the digits of v gives the digits of v * b + d.
  lemma DigitsSnoc(v: nat, d: nat, b: nat)
    requires b >= 2 && d < b
    ensures Digits(v * b + d, b) == if v == 0 then [d] else Digits(v, b) + [d]
  {
    if v == 0 {
      assert 0 * b + d == d;
    } else {
      RemainderUnique(v * b + d, b, v, d);
      MulMonotone(1, v, b);
    }
  }

  lemma PadSnoc(v: nat, d: nat, n: nat, b: nat)
    requires b >= 2 && d < b && 0 < n && |Digits(v, b)| <= n
    ensures var ds := if v == 0 then [d] else Digits(v, b) + [d];
            Pad(ds, n + 1) == Pad(Digits(v, b), n) + [d]
  {
    if v == 0 {
      assert Digits(0, b) == [0];
      assert Pad([d], n + 1) == Zeros(n) + [d];
      assert n > 1 ==> Pad([0], n) == Zeros(n - 1) + [0];
    }
  }

  lemma DigitsNoLeadingZero(n: nat, b: nat)
    requires b >= 2 && n > 0
    ensures Digits(n, b)[0] != 0
    decreases n
  {
    if n >= b {
      DivSmaller(n, b);
      QuotientBelow(n / b, n % b, b, 1);
      DigitsNoLeadingZero(n / b, b);
    }
  }

  // A number has at most k digits exactly when it is below b^k.
  lemma {:induction false} DigitCount(n: nat, k: nat, b: nat)
    requires b >= 2 && k >= 1
    ensures |Digits(n, b)| <= k <==> n < Pow(b, k)
    decreases k
  {
    PowPositive(b, k - 1);
    MulMonotone(1, Pow(b, k - 1), b);
    if n >= b {
      DivSmaller(n, b);
      if k == 1 {
        assert Pow(b, 1) == b * 1;
      } else {
        DigitCount(n / b, k - 1, b);
        QuotientBelow(n / b, n % b, b, Pow(b, k - 1));
      }
    }
  }

  // Digits without a leading zero are the digits of their value.
  lemma CanonicalDigits(ds: seq<nat>, b: nat)
    requires b >= 2 && ds != [] && AreDigits(ds, b) && (ds[0] != 0 || |ds| == 1)
    ensures Digits(Value(ds, b), b) == ds
  {
    PadDigitsValue(ds, b);
    hide Digits, Value;
    var own := Digits(Value(ds, b), b);
    PadLeads(own, |ds|);
  }

  lemma PadLeads(ds: seq<nat>, len: nat)
    ensures |ds| < len ==> Pad(ds, len)[0] == 0
  {
    if |ds| < len { assert Pad(ds, len)[0] == Zeros(len - |ds|)[0]; }
  }
}

/** Modular arithmetic shared by every protocol of the model: congruences, powers,
    Euclid's lemma, Fermat's little theorem and square-and-multiply exponentiation. */
module Numbers {

  // ----- powers -----

  function Pow(b: int, e: nat): int {
    if e == 0 then 1 else b * Pow(b, e - 1)
  }

  lemma {:induction false} PowAdd(b: int, m: nat, n: nat)
    ensures Pow(b, m + n) == Pow(b, m) * Pow(b, n)
  {
    if m != 0 {
      PowAdd(b, m - 1, n);
      assert b * (Pow(b, m - 1) * Pow(b, n)) == (b * Pow(b, m - 1)) * Pow(b, n);
    }
  }

  lemma {:induction false} PowMul(b: int, m: nat, n: nat)
    ensures 0 <= m * n && Pow(Pow(b, m), n) == Pow(b, m * n)
  {
    if n == 0 {
      assert m * n == 0;
    } else {
      PowMul(b, m, n - 1);
      assert m * n == m + m * (n - 1);
      PowAdd(b, m, m * (n - 1));
    }
  }

  lemma MulShuffle(a: int, b: int, c: int, d: int)
    ensures (a * b) * (c * d) == (a * c) * (b * d)
  {
    calc {
      (a * b) * (c * d);
      a * (b * (c * d));
      { assert b * (c * d) == c * (b * d); }
      a * (c * (b * d));
      (a * c) * (b * d);
    }
  }

  lemma {:induction false} PowOfProduct(a: int, b: int, e: nat)
    ensures Pow(a * b, e) == Pow(a, e) * Pow(b, e)
  {
    if e != 0 {
      PowOfProduct(a, b, e - 1);
      MulShuffle(a, b, Pow(a, e - 1), Pow(b, e - 1));
    }
  }

  lemma {:induction false} PowPositive(b: int, e: nat)
    requires b > 0
    ensures Pow(b, e) > 0
  {
    if e != 0 {
      PowPositive(b, e - 1);
      MulPositive(b, Pow(b, e - 1));
    }
  }

  lemma {:induction false} PowOfOne(e: nat)
    ensures Pow(1, e) == 1
  {
    if e != 0 { PowOfOne(e - 1); }
  }

  lemma MulPositive(a: int, b: int)
    requires a > 0 && b > 0
    ensures a * b > 0
  {}

  lemma MulMonotone(a: int, b: int, c: int)
    requires a <= b && 0 <= c
    ensures a * c <= b * c
  {}

  // ----- remainders and congruences -----

  // The remainder is the only value in [0, m) that differs from a by a multiple of m.
  lemma RemainderUnique(a: int, m: int, q: int, r: int)
    requires m > 0 && a == q * m + r && 0 <= r < m
    ensures a % m == r && a / m == q
  {
    var d := a / m - q;
    assert a == (a / m) * m + a % m;
    assert d * m == r - a % m by {
      assert d * m == (a / m) * m - q * m;
    }
    if d >= 1 {
      MulMonotone(1, d, m);
    } else if d <= -1 {
      MulMonotone(d, -1, m);
    }
  }

  lemma AddMultiple(a: int, k: int, m: int)
    requires m > 0
    ensures (a + k * m) % m == a % m
  {
    var q := a / m;
    assert a + k * m == (q + k) * m + a % m by {
      assert (q + k) * m == q * m + k * m;
    }
    RemainderUnique(a + k * m, m, q + k, a % m);
  }

  // Two integers are congruent mod m.
  predicate Cong(a: int, b: int, m: int)
    requires m > 0
  {
    a % m == b % m
  }

  // a % m by repeated subtraction or addition, for contracts about fixed large moduli.
  function Residue(a: int, m: int): int
    requires m > 0
    decreases if a < 0 then m - a else a
  {
    if a < 0 then Residue(a + m, m) else if a < m then a else Residue(a - m, m)
  }

  lemma {:induction false} ResidueIs(a: int, m: int)
    requires m > 0
    ensures Residue(a, m) == a % m
    decreases if a < 0 then m - a else a
  {
    if a < 0 {
      ResidueIs(a + m, m);
      AddMultiple(a, 1, m);
    } else if a < m {
      RemainderUnique(a, m, 0, a);
    } else {
      ResidueIs(a - m, m);
      AddMultiple(a - m, 1, m);
    }
  }

  // Congruence as such contracts state it.
  predicate Agree(a: int, b: int, m: int)
    requires m > 0
  {
    Residue(a, m) == Residue(b, m)
  }

  lemma AgreeIsCong(a: int, b: int, m: int)
    requires m > 0
    ensures Agree(a, b, m) <==> Cong(a, b, m)
  {
    ResidueIs(a, m);
    ResidueIs(b, m);
  }

  // a * b by repeated addition, for contracts that should not multiply unknowns.
  function Multiply(a: int, b: int): int
    decreases if a < 0 then -a else a
  {
    if a == 0 then 0 else if a > 0 then Multiply(a - 1, b) + b else Multiply(a + 1, b) - b
  }

  lemma {:induction false} MultiplyIs(a: int, b: int)
    ensures Multiply(a, b) == a * b
    decreases if a < 0 then -a else a
  {
    if a > 0 {
      MultiplyIs(a - 1, b);
      assert (a - 1) * b == a * b - b;
    } else if a < 0 {
      MultiplyIs(a + 1, b);
      assert (a + 1) * b == a * b + b;
    }
  }

  lemma CongSymmetric(a: int, b: int, m: int)
    requires m > 0
    ensures Cong(a, b, m) == Cong(b, a, m)
  {}

  lemma CongFromMultiple(a: int, b: int, k: int, m: int)
    requires m > 0 && a == b + k * m
    ensures Cong(a, b, m)
  {
    AddMultiple(b, k, m);
  }

  lemma CongToMultiple(a: int, b: int, m: int) returns (k: int)
    requires m > 0 && Cong(a, b, m)
    ensures a == b + k * m
  {
    k := a / m - b / m;
    assert a == (a / m) * m + a % m && b == (b / m) * m + b % m;
    assert k * m == (a / m) * m - (b / m) * m;
  }

  lemma CongMod(a: int, m: int)
    requires m > 0
    ensures Cong(a % m, a, m)
  {
    CongFromMultiple(a, a % m, a / m, m);
  }

  lemma CongAdd(a: int, a': int, b: int, b': int, m: int)
    requires m > 0 && Cong(a, a', m) && Cong(b, b', m)
    ensures Cong(a + b, a' + b', m)
  {
    var k := CongToMultiple(a, a', m);
    var l := CongToMultiple(b, b', m);
    assert (k + l) * m == k * m + l * m;
    CongFromMultiple(a + b, a' + b', k + l, m);
  }

  lemma CongSub(a: int, a': int, b: int, b': int, m: int)
    requires m > 0 && Cong(a, a', m) && Cong(b, b', m)
    ensures Cong(a - b, a' - b', m)
  {
    var k := CongToMultiple(a, a', m);
    var l := CongToMultiple(b, b', m);
    assert (k - l) * m == k * m - l * m;
    CongFromMultiple(a - b, a' - b', k - l, m);
  }

  lemma CongMul(a: int, a': int, b: int, b': int, m: int)
    requires m > 0 && Cong(a, a', m) && Cong(b, b', m)
    ensures Cong(a * b, a' * b', m)
  {
    var k := CongToMultiple(a, a', m);
    var l := CongToMultiple(b, b', m);
    calc {
      a * b;
      (a' + k * m) * (b' + l * m);
      a' * b' + a' * (l * m) + (k * m) * b' + (k * m) * (l * m);
      { assert a' * (l * m) == (a' * l) * m; assert (k * m) * b' == (k * b') * m;
        assert (k * m) * (l * m) == (k * (m * l)) * m; }
      a' * b' + (a' * l) * m + (k * b') * m + (k * (m * l)) * m;
      { assert (a' * l) * m + (k * b') * m + (k * (m * l)) * m == (a' * l + k * b' + k * (m * l)) * m; }
      a' * b' + (a' * l + k * b' + k * (m * l)) * m;
    }
    CongFromMultiple(a * b, a' * b', a' * l + k * b' + k * (m * l), m);
  }

  lemma {:induction false} CongPow(a: int, b: int, e: nat, m: int)
    requires m > 0 && Cong(a, b, m)
    ensures Cong(Pow(a, e), Pow(b, e), m)
  {
    if e != 0 {
      CongPow(a, b, e - 1, m);
      CongMul(a, b, Pow(a, e - 1), Pow(b, e - 1), m);
    }
  }

  // The three shapes in which the sources reduce: after a sum, a difference or a product.
  lemma ModMulLeft(a: int, b: int, m: int)
    requires m > 0
    ensures ((a % m) * b) % m == (a * b) % m
  {
    CongMod(a, m);
    CongMul(a % m, a, b, b, m);
  }

  lemma ModMulBoth(a: int, b: int, m: int)
    requires m > 0
    ensures ((a % m) * (b % m)) % m == (a * b) % m
  {
    CongMod(a, m);
    CongMod(b, m);
    CongMul(a % m, a, b % m, b, m);
  }

  lemma ModAddBoth(a: int, b: int, m: int)
    requires m > 0
    ensures (a % m + b % m) % m == (a + b) % m
  {
    CongMod(a, m);
    CongMod(b, m);
    CongAdd(a % m, a, b % m, b, m);
  }

  lemma CongZeroSub(a: int, b: int, m: int)
    requires m > 0
    ensures Cong(a, b, m) <==> (a - b) % m == 0
  {
    if Cong(a, b, m) {
      var k := CongToMultiple(a, b, m);
      AddMultiple(0, k, m);
    }
    if (a - b) % m == 0 {
      CongFromMultiple(a, b, (a - b) / m, m);
    }
  }

  // ----- divisibility and primes -----

  ghost predicate IsPrime(p: int) {
    p > 1 && forall d :: 1 < d < p ==> p % d != 0
  }

  // The least d >= 1 with p | a * d.
  ghost predicate LeastMultiplier(a: int, p: int, d: int)
    requires p > 0
  {
    d >= 1 && (a * d) % p == 0 && forall c :: 1 <= c < d ==> (a * c) % p != 0
  }

  lemma FindLeastMultiplier(a: int, p: int) returns (d: int)
    requires p > 0
    ensures LeastMultiplier(a, p, d)
  {
    d := 1;
    AddMultiple(0, a, p);
    while (a * d) % p != 0
      invariant 1 <= d <= p
      invariant forall c :: 1 <= c < d ==> (a * c) % p != 0
      decreases p - d
    {
      d := d + 1;
    }
  }

  lemma LeastMultiplierDivides(a: int, p: int, d: int, n: int)
    requires p > 0 && LeastMultiplier(a, p, d) && (a * n) % p == 0
    ensures n % d == 0
  {
    var r := n % d;
    assert r == n - (n / d) * d;
    assert a * r == a * n - (n / d) * (a * d) by {
      assert a * ((n / d) * d) == (n / d) * (a * d);
    }
    CongMul(n / d, n / d, a * d, 0, p);
    CongSub(a * n, 0, (n / d) * (a * d), (n / d) * 0, p);
  }

  // Euclid's lemma.
  lemma EuclidLemma(a: int, b: int, p: int)
    requires IsPrime(p) && (a * b) % p == 0
    ensures a % p == 0 || b % p == 0
  {
    var d := FindLeastMultiplier(a, p);
    LeastMultiplierDivides(a, p, d, b);
    AddMultiple(0, a, p);
    LeastMultiplierDivides(a, p, d, p);
    if d == 1 {
      assert (a * 1) % p == 0;
    } else {
      assert d == p by {
        if d > p {
          RemainderUnique(p, d, 0, p);
        }
      }
    }
  }

  lemma {:induction false} EuclidPow(a: int, e: nat, p: int)
    requires IsPrime(p) && Pow(a, e) % p == 0
    ensures a % p == 0
  {
    if e == 0 {
      RemainderUnique(1, p, 0, 1);
    } else {
      EuclidLemma(a, Pow(a, e - 1), p);
      if a % p != 0 { EuclidPow(a, e - 1, p); }
    }
  }

  // A nonzero factor can be cancelled from a congruence modulo a prime.
  lemma CancelFactor(c: int, a: int, b: int, p: int)
    requires IsPrime(p) && c % p != 0 && Cong(c * a, c * b, p)
    ensures Cong(a, b, p)
  {
    CongZeroSub(c * a, c * b, p);
    assert c * a - c * b == c * (a - b);
    EuclidLemma(c, a - b, p);
    CongZeroSub(a, b, p);
  }

  // ----- products over sets, and Fermat's little theorem -----

  ghost predicate IsSmallest(s: set<int>, x: int) {
    x in s && forall y :: y in s ==> x <= y
  }

  lemma Element<T>(s: set<T>) returns (x: T)
    requires s != {}
    ensures x in s
  {
    x :| x in s;
  }

  lemma {:induction false} FindSmallest(s: set<int>) returns (x: int)
    requires s != {}
    ensures IsSmallest(s, x)
    decreases |s|
  {
    x := Element(s);
    if s - {x} != {} {
      var m := FindSmallest(s - {x});
      assert forall y :: y in s ==> y == x || y in s - {x};
      if m <= x { x := m; }
    } else {
      assert s == {x} + (s - {x}) == {x};
    }
  }

  lemma SmallestExists(s: set<int>)
    requires s != {}
    ensures exists x :: IsSmallest(s, x)
  {
    var x := FindSmallest(s);
  }

  ghost function Smallest(s: set<int>): (x: int)
    requires s != {}
    ensures IsSmallest(s, x)
  {
    SmallestExists(s);
    var x :| IsSmallest(s, x);
    x
  }

  ghost function SetProduct(s: set<int>): int {
    if s == {} then 1 else
      var x := Smallest(s);
      x * SetProduct(s - {x})
  }

  lemma SwapFactors(x: int, y: int, r: int)
    ensures x * (y * r) == y * (x * r)
  {}

  lemma {:induction false} SetProductAdd(s: set<int>, y: int)
    requires y !in s
    ensures SetProduct(s + {y}) == y * SetProduct(s)
    decreases s
  {
    var t := s + {y};
    var x := Smallest(t);
    if x == y {
      assert t - {x} == s;
    } else {
      SetProductAdd(s - {x}, y);
      assert t - {x} == (s - {x}) + {y};
      SetProductAdd(s - {x}, x);
      assert (s - {x}) + {x} == s;
      SwapFactors(x, y, SetProduct(s - {x}));
    }
  }

  // The residues a*1, ..., a*n modulo p, as a set.
  ghost function Residues(a: int, n: nat, p: int): (s: set<int>)
    requires p > 0
  {
    set i | 1 <= i <= n :: (a * i) % p
  }

  lemma {:induction false} ResiduesDistinct(a: int, n: nat, p: int)
    requires IsPrime(p) && a % p != 0 && n < p
    ensures |Residues(a, n, p)| == n
  {
    if n == 0 {
      assert Residues(a, n, p) == {};
    } else {
      ResiduesDistinct(a, n - 1, p);
      ResiduesStep(a, n, p);
    }
  }

  lemma {:induction false} ResiduesProduct(a: int, n: nat, p: int)
    requires IsPrime(p) && a % p != 0 && n < p
    ensures Cong(SetProduct(Residues(a, n, p)), Pow(a, n) * SetProduct(Residues(1, n, p)), p)
  {
    if n == 0 {
      assert Residues(a, n, p) == {} == Residues(1, n, p);
    } else {
      ResiduesProduct(a, n - 1, p);
      ResiduesProductStep(a, n, p);
      ResiduesProductOne(n, p);
      var s, u := SetProduct(Residues(a, n - 1, p)), SetProduct(Residues(1, n - 1, p));
      CongMod(a * n, p);
      CongMul((a * n) % p, a * n, s, Pow(a, n - 1) * u, p);
      MulShuffle(a, n, Pow(a, n - 1), u);
    }
  }

  lemma ResiduesProductStep(a: int, n: nat, p: int)
    requires IsPrime(p) && a % p != 0 && 0 < n < p
    ensures SetProduct(Residues(a, n, p)) == ((a * n) % p) * SetProduct(Residues(a, n - 1, p))
  {
    ResiduesStep(a, n, p);
    SetProductAdd(Residues(a, n - 1, p), (a * n) % p);
  }

  lemma ResiduesProductOne(n: nat, p: int)
    requires IsPrime(p) && 0 < n < p
    ensures SetProduct(Residues(1, n, p)) == n * SetProduct(Residues(1, n - 1, p))
  {
    RemainderUnique(1, p, 0, 1);
    ResiduesProductStep(1, n, p);
    RemainderUnique(n, p, 0, n);
  }

  lemma ResiduesStep(a: int, n: nat, p: int)
    requires IsPrime(p) && a % p != 0 && 0 < n < p
    ensures (a * n) % p !in Residues(a, n - 1, p)
    ensures Residues(a, n, p) == Residues(a, n - 1, p) + {(a * n) % p}
  {
    forall i | 1 <= i <= n - 1
      ensures (a * i) % p != (a * n) % p
    {
      if (a * i) % p == (a * n) % p {
        CancelFactor(a, i, n, p);
        RemainderUnique(i, p, 0, i);
        RemainderUnique(n, p, 0, n);
      }
    }
  }

  lemma ResiduesFull(a: int, p: int)
    requires IsPrime(p) && a % p != 0
    ensures Residues(a, p - 1, p) == Residues(1, p - 1, p)
  {
    var s, t := Residues(a, p - 1, p), Residues(1, p - 1, p);
    RemainderUnique(1, p, 0, 1);
    ResiduesDistinct(a, p - 1, p);
    ResiduesDistinct(1, p - 1, p);
    forall x | x in s
      ensures x in t
    {
      var i :| 1 <= i <= p - 1 && x == (a * i) % p;
      if x == 0 {
        EuclidLemma(a, i, p);
        RemainderUnique(i, p, 0, i);
      }
      RemainderUnique(x, p, 0, x);
      assert x == (1 * x) % p;
    }
    SubsetSameSize(s, t);
  }

  lemma SubsetSameSize(s: set<int>, t: set<int>)
    requires s <= t && |s| == |t|
    ensures s == t
  {
    assert |t - s| == |t| - |s|;
    assert t == s + (t - s);
  }

  lemma {:induction false} FactorialUnit(n: nat, p: int)
    requires IsPrime(p) && n < p
    ensures SetProduct(Residues(1, n, p)) % p != 0
  {
    RemainderUnique(1, p, 0, 1);
    if n == 0 {
      assert Residues(1, n, p) == {};
    } else {
      FactorialUnit(n - 1, p);
      ResiduesProductOne(n, p);
      RemainderUnique(n, p, 0, n);
      if (n * SetProduct(Residues(1, n - 1, p))) % p == 0 {
        EuclidLemma(n, SetProduct(Residues(1, n - 1, p)), p);
      }
    }
  }

  lemma Fermat(a: int, p: int)
    requires IsPrime(p) && a % p != 0
    ensures Cong(Pow(a, p - 1), 1, p)
  {
    var f := SetProduct(Residues(1, p - 1, p));
    ResiduesProduct(a, p - 1, p);
    ResiduesFull(a, p);
    FactorialUnit(p - 1, p);
    assert Pow(a, p - 1) * f == f * Pow(a, p - 1) && f == f * 1;
    CancelFactor(f, Pow(a, p - 1), 1, p);
  }

  // Raising to p - 2 inverts, which is how every source file inverts modulo its prime.
  lemma FermatInverse(a: int, p: int)
    requires IsPrime(p) && a % p != 0
    ensures Cong(a * Pow(a, p - 2), 1, p)
  {
    Fermat(a, p);
  }

  // Exponents of an element of order dividing q may be reduced modulo q.
  lemma ExponentMod(g: int, e: nat, q: int, p: int)
    requires p > 0 && q > 0 && Cong(Pow(g, q), 1, p)
    ensures Cong(Pow(g, e), Pow(g, e % q), p)
  {
    var k := e / q;
    assert e == q * k + e % q;
    PowMul(g, q, k);
    PowAdd(g, q * k, e % q);
    CongPow(Pow(g, q), 1, k, p);
    PowOfOne(k);
    CongMul(Pow(Pow(g, q), k), 1, Pow(g, e % q), Pow(g, e % q), p);
  }

  // An element of prime order q has no smaller period.
  lemma PrimeOrder(g: int, e: nat, q: int, p: int)
    requires IsPrime(q) && p > 0 && Cong(Pow(g, q), 1, p) && !Cong(g, 1, p)
    requires Cong(Pow(g, e), 1, p)
    ensures e % q == 0
  {
    if e % q != 0 {
      // some multiple of e is 1 more than a multiple of q
      var inv := Pow(e, q - 2);
      PowPositiveOrZero(e, q - 2);
      FermatInverse(e, q);
      var n := e * inv;
      assert n >= 0;
      RemainderUnique(1, q, 0, 1);
      ExponentMod(g, n, q, p);
      assert Pow(g, 1) == g * Pow(g, 0) == g;
      PowMul(g, e, inv);
      CongPow(Pow(g, e), 1, inv, p);
      PowOfOne(inv);
    }
  }

  lemma PowPositiveOrZero(b: nat, e: nat)
    ensures Pow(b, e) >= 0
  {
    if b > 0 { PowPositive(b, e); } else if e > 0 { assert Pow(b, e) == 0; }
  }

  // ----- square and multiply -----

  // The remainder of a BigInt division, which has the sign of the dividend.
  function Rem(a: int, m: int): (r: int)
    requires m > 0
    ensures Cong(r, a, m) && -m < r < m
    ensures a >= 0 ==> r >= 0
  {
    CongMod(a, m);
    CongMod(-a, m);
    CongSub(0, 0, (-a) % m, -a, m);
    if a >= 0 then a % m else -((-a) % m)
  }

  /** The modPow that first makes the base non-negative: bits of the exponent from the least significant. */
  method PowMod(base: int, exp: nat, m: int) returns (res: int)
    requires m > 0
    ensures res == if exp == 0 then 1 else Pow(base, exp) % m
    ensures m > 1 ==> res == Pow(base, exp) % m
  {
    res := 1;
    var b := (base % m + m) % m;
    var e := exp;
    CongMod(base, m);
    AddMultiple(base % m, 1, m);
    CongPow(b, base, exp, m);
    while e > 0
      invariant 0 <= e <= exp && 0 <= res && (res < m || (res == 1 && (e > 0 || exp == 0)))
      invariant e == exp ==> res == 1
      invariant Cong(res * Pow(b, e), Pow(base, exp), m)
    {
      ghost var (res0, b0, e0) := (res, b, e);
      if e % 2 == 1 {
        res := (res * b) % m;
      }
      b := (b * b) % m;
      e := e / 2;
      CongMod(res0 * b0, m);
      CongMod(b0 * b0, m);
      SquareStep(res0, b0, e0, res, b, m);
    }
    assert Pow(b, 0) == 1 && res * 1 == res;
    if m > 1 { RemainderUnique(1, m, 0, 1); }
    if exp > 0 { RemainderUnique(res, m, 0, res); }
  }

  // One bit of square and multiply, for any representatives of the new result and base.
  lemma SquareStep(res: int, b: int, e: nat, res': int, b': int, m: int)
    requires m > 0 && e > 0 && Cong(b', b * b, m)
    requires if e % 2 == 1 then Cong(res', res * b, m) else res' == res
    ensures Cong(res' * Pow(b', e / 2), res * Pow(b, e), m)
  {
    var h := e / 2;
    var sq := Pow(b, h) * Pow(b, h);
    CongPow(b', b * b, h, m);
    PowOfProduct(b, b, h);
    PowAdd(b, h, h);
    if e % 2 == 1 {
      assert e == 1 + (h + h) && Pow(b, e) == b * sq;
      CongMul(res', res * b, Pow(b', h), sq, m);
      assert (res * b) * sq == res * (b * sq);
    } else {
      assert e == h + h;
      CongMul(res, res, Pow(b', h), sq, m);
    }
  }
}

/** The verifiable delay functions of vdf.ts: Wesolowski and Pietrzak provers and verifiers. */
module Vdf {
  import opened Numbers
  import opened Text

  // 2^t
  function Pow2(t: nat): (r: nat)
    ensures r >= 1
  {
    if t == 0 then 1 else 2 * Pow2(t - 1)
  }

  lemma {:induction false} Pow2IsPow(t: nat)
    ensures Pow2(t) == Pow(2, t)
  {
    if t != 0 { Pow2IsPow(t - 1); }
  }

  /** modPow, with its special case for modulus 1. */
  method ModPow(base: int, exp: nat, m: nat) returns (r: nat)
    requires m > 0
    ensures r == Pow(base, exp) % m
  {
    if m == 1 { return 0; }
    r := PowMod(base, exp, m);
  }

  /** evaluateVdf: T sequential squarings; the assertions throw. */
  method EvaluateVdf(x: int, T: int, N: int) returns (r: Option<nat>)
    ensures r.Some? <==> N > 0 && x > 0 && T >= 1
    ensures r.Some? ==> r.value == Pow(x, Pow2(T)) % N
  {
    if N <= 0 || x <= 0 || T < 1 { return None; }
    var y := Squarings(x % N, T, N);
    CongMod(x, N);
    CongPow(x % N, x, Pow2(T), N);
    return Some(y);
  }

  lemma SquarePower(x: int, e: nat, n: int)
    requires n > 0
    ensures ((Pow(x, e) % n) * (Pow(x, e) % n)) % n == Pow(x, 2 * e) % n
  {
    ModMulBoth(Pow(x, e), Pow(x, e), n);
    PowAdd(x, e, e);
  }

  // ----- Wesolowski -----

  datatype WesolowskiProof = WesolowskiProof(y: nat, pi: nat, l: nat, r: nat)

  // An arbitrary hash of (x, y, T, N), already masked to the challenge length.
  type Hash4 = (nat, nat, nat, nat) -> nat

  // fiatShamirChallenge: at least 3 and odd.
  function Challenge(h: Hash4, x: nat, y: nat, T: nat, N: nat): (l: nat)
    requires N > 0
    ensures l >= 3 && l % 2 == 1
    ensures var raw := h(x % N, y % N, T, N); raw >= 3 ==> raw <= l <= raw + 1
  {
    var raw := h(x % N, y % N, T, N);
    var l := if raw < 3 then 3 else raw;
    if l % 2 == 0 then l + 1 else l
  }

  /** proveWesolowski: evaluation, then one pass that builds the quotient power and the remainder. */
  method ProveWesolowski(x: int, T: int, N: int, h: Hash4) returns (r: Option<WesolowskiProof>)
    ensures r.Some? <==> N > 0 && x > 0 && T >= 1
    ensures r.Some? ==> IsWesolowskiProof(r.value, x, T, N, h)
  {
    hide Pow, Pow2, PowerOf, Challenge;
    if N <= 0 || x <= 0 || T < 1 { return None; }
    var xMod := x % N;
    var y := Squarings(xMod, T, N);
    var l := Challenge(h, xMod, y, T, N);
    var pi, rem := QuotientPower(xMod, T, N, l);
    PowerOfMod(x, Pow2(T), N);
    PowerOfMod(x, Pow2(T) / l, N);
    return Some(WesolowskiProof(y, pi, l, rem));
  }

  lemma PowerOfMod(x: nat, e: nat, N: nat)
    requires N > 0
    ensures PowerOf(x % N, e, N) == PowerOf(x, e, N)
  {
    CongMod(x, N);
    CongPow(x % N, x, e, N);
  }

  /** The squaring loop of the evaluation and of the prover. */
  method Squarings(xMod: nat, T: nat, N: nat) returns (y: nat)
    requires N > 0 && xMod < N
    ensures y == Pow(xMod, Pow2(T)) % N == PowerOf(xMod, Pow2(T), N)
  {
    y := xMod;
    assert Pow(xMod, 1) == xMod * Pow(xMod, 0) == xMod;
    RemainderUnique(xMod, N, 0, xMod);
    for i := 0 to T
      invariant y == Pow(xMod, Pow2(i)) % N
    {
      SquarePower(xMod, Pow2(i), N);
      y := (y * y) % N;
    }
  }

  // x^e mod N
  function PowerOf(x: nat, e: nat, N: nat): (r: nat)
    requires N > 0
    ensures r < N
  {
    Pow(x, e) % N
  }

  // What the honest prover claims: y = x^(2^T), pi = x^(2^T div l), r = 2^T mod l.
  predicate IsWesolowskiProof(proof: WesolowskiProof, x: nat, T: nat, N: nat, h: Hash4)
    requires N > 0
  {
    hide Pow2, PowerOf;
    && proof.y == PowerOf(x, Pow2(T), N)
    && proof.l == Challenge(h, x % N, proof.y, T, N)
    && proof.r == Pow2(T) % proof.l
    && proof.pi == PowerOf(x, Pow2(T) / proof.l, N)
  }

  /** The one-pass loop: long division of 2^T by l, one quotient bit at a time. */
  method QuotientPower(xMod: nat, T: nat, N: nat, l: nat) returns (pi: nat, rem: nat)
    requires N > 0 && T >= 1 && l >= 3
    ensures rem == Pow2(T) % l && pi == PowerOf(xMod, Pow2(T) / l, N)
  {
    pi, rem := 1, 1;
    RemainderUnique(1, l, 0, 1);
    for i := 0 to T
      invariant rem == Pow2(i) % l
      invariant Cong(pi, Pow(xMod, Pow2(i) / l), N) && (i > 0 ==> pi < N)
    {
      var doubled := 2 * rem;
      var bit := if doubled >= l then 1 else 0;
      DivisionStep(Pow2(i), l);
      PowerStep(pi, xMod, Pow2(i) / l, bit, N);
      rem := doubled % l;
      pi := (pi * pi) % N;
      if bit == 1 { pi := (pi * xMod) % N; }
    }
    RemainderUnique(pi, N, 0, pi);
  }

  // Doubling the dividend doubles the quotient and the remainder, with at most one carry.
  lemma DivisionStep(n: nat, l: nat)
    requires l > 0
    ensures var d := 2 * (n % l);
            var bit := if d >= l then 1 else 0;
            (2 * n) / l == 2 * (n / l) + bit && (2 * n) % l == d - bit * l == d % l
  {
    var q, d := n / l, 2 * (n % l);
    var bit := if d >= l then 1 else 0;
    assert n == q * l + n % l;
    assert 2 * n == (2 * q + bit) * l + (d - bit * l) by {
      assert (2 * q + bit) * l == 2 * (q * l) + bit * l;
    }
    RemainderUnique(2 * n, l, 2 * q + bit, d - bit * l);
    RemainderUnique(d, l, bit, d - bit * l);
  }

  lemma PowerStep(pi: int, x: int, e: nat, bit: nat, n: int)
    requires n > 0 && bit <= 1 && Cong(pi, Pow(x, e), n)
    ensures var sq := (pi * pi) % n;
            Cong(if bit == 1 then (sq * x) % n else sq, Pow(x, 2 * e + bit), n)
  {
    var sq := (pi * pi) % n;
    CongMul(pi, Pow(x, e), pi, Pow(x, e), n);
    PowAdd(x, e, e);
    CongMod(pi * pi, n);
    if bit == 1 {
      CongMul(sq, Pow(x, 2 * e), x, x, n);
      CongMod(sq * x, n);
      assert Pow(x, 2 * e + 1) == x * Pow(x, 2 * e);
    }
  }

  // The verifier's equation and its two recomputed values.
  predicate WesolowskiAccepts(x: nat, T: nat, N: nat, proof: WesolowskiProof, h: Hash4)
    requires N > 0
  {
    && proof.l == Challenge(h, x % N, proof.y, T, N)
    && proof.r == Pow2(T) % proof.l
    && (Pow(proof.pi, proof.l) * Pow(x, proof.r)) % N == proof.y % N
  }

  /** verifyWesolowski; bad public parameters throw. */
  method VerifyWesolowski(x: nat, T: int, N: int, proof: WesolowskiProof, h: Hash4) returns (r: Option<bool>)
    ensures r == if N <= 0 || T < 1 then None else Some(WesolowskiAccepts(x, T, N, proof, h))
  {
    if N <= 0 || T < 1 { return None; }
    var xMod := x % N;
    var expectedL := Challenge(h, xMod, proof.y, T, N);
    if proof.l != expectedL { return Some(false); }
    var e := ModPow(2, T, proof.l);
    Pow2IsPow(T);
    if proof.r != e { return Some(false); }
    var a := ModPow(proof.pi, proof.l, N);
    var b := ModPow(xMod, e, N);
    CongMod(x, N);
    CongPow(xMod, x, e, N);
    ModMulBoth(Pow(proof.pi, proof.l), Pow(x, e), N);
    return Some((a * b) % N == proof.y % N);
  }

  /** Completeness: the prover's output is accepted for every x, N and T and every hash. */
  lemma WesolowskiComplete(x: nat, T: nat, N: nat, h: Hash4, proof: WesolowskiProof)
    requires N > 0 && IsWesolowskiProof(proof, x, T, N, h)
    ensures WesolowskiAccepts(x, T, N, proof, h)
  {
    hide Challenge;
    QuotientEquation(x, Pow2(T), proof.l, N);
    CongMod(Pow(x, Pow2(T)), N);
  }

  lemma QuotientEquation(x: int, e: nat, l: nat, n: int)
    requires n > 0 && l > 0
    ensures (Pow(Pow(x, e / l) % n, l) * Pow(x, e % l)) % n == Pow(x, e) % n
  {
    var q, r := e / l, e % l;
    CongMod(Pow(x, q), n);
    CongPow(Pow(x, q) % n, Pow(x, q), l, n);
    PowMul(x, q, l);
    assert e == q * l + r;
    PowAdd(x, q * l, r);
    CongMul(Pow(Pow(x, q) % n, l), Pow(x, q * l), Pow(x, r), Pow(x, r), n);
  }

  // ----- Pietrzak -----

  datatype PietrzakProof = PietrzakProof(y: nat, mus: seq<nat>)

  // The claim y = x^(2^t).
  datatype Claim = Claim(x: nat, y: nat, t: nat)

  // An arbitrary 128-bit hash of (x, y, mu, T, N).
  type Hash5 = (nat, nat, nat, nat, nat) -> nat

  // pietrzakChallenge: 0 becomes 1.
  function Round(h: Hash5, x: nat, y: nat, mu: nat, t: nat, N: nat): (r: nat)
    requires N > 0
    ensures r >= 1 && (r > 1 ==> r == h(x % N, y % N, mu % N, t, N))
  {
    var raw := h(x % N, y % N, mu % N, t, N);
    if raw == 0 then 1 else raw
  }

  function FoldX(h: Hash5, x: nat, y: nat, mu: nat, t: nat, N: nat): (x': nat)
    requires N > 0
    ensures x' < N
  {
    PowPositiveOrZero(x, Round(h, x, y, mu, t, N));
    (Pow(x, Round(h, x, y, mu, t, N)) * mu) % N
  }

  function FoldY(h: Hash5, x: nat, y: nat, mu: nat, t: nat, N: nat): (y': nat)
    requires N > 0
    ensures y' < N
  {
    PowPositiveOrZero(mu, Round(h, x, y, mu, t, N));
    (Pow(mu, Round(h, x, y, mu, t, N)) * y) % N
  }

  predicate IsPowerOfTwo(t: nat) {
    t == 1 || (t > 1 && t % 2 == 0 && IsPowerOfTwo(t / 2))
  }

  // a & b, bit by bit; the source's 32-bit operator agrees for numbers below 2^31.
  function BitAnd(a: nat, b: nat): nat {
    if a == 0 || b == 0 then 0 else 2 * BitAnd(a / 2, b / 2) + if a % 2 == 1 && b % 2 == 1 then 1 else 0
  }

  lemma {:induction false} BitAndSelf(a: nat)
    ensures BitAnd(a, a) == a
  {
    if a > 0 { BitAndSelf(a / 2); }
  }

  // T & (T - 1) is zero exactly for the powers of two.
  lemma {:induction false} BitTest(t: nat)
    requires t > 0
    ensures BitAnd(t, t - 1) == 0 <==> IsPowerOfTwo(t)
  {
    if t > 1 {
      if t % 2 == 0 {
        BitTest(t / 2);
        assert (t - 1) / 2 == t / 2 - 1 && (t - 1) % 2 == 1;
      } else {
        BitAndSelf(t / 2);
        assert (t - 1) / 2 == t / 2;
      }
    }
  }

  // log2 of a power of two
  function Rounds(t: nat): nat {
    if t <= 1 then 0 else 1 + Rounds(t / 2)
  }

  // mu = x^(2^(t/2)) mod N
  function Midpoint(x: nat, t: nat, N: nat): nat
    requires N > 0
  {
    Pow(x, Pow2(t / 2)) % N
  }

  // The honest midpoints of the halving rounds.
  function Mus(h: Hash5, x: nat, y: nat, t: nat, N: nat): (mus: seq<nat>)
    requires N > 0
    ensures |mus| == Rounds(t)
    decreases t
  {
    hide FoldX, FoldY, Midpoint;
    if t <= 1 then [] else
      var mu := Midpoint(x, t, N);
      [mu] + Mus(h, FoldX(h, x, y, mu, t, N), FoldY(h, x, y, mu, t, N), t / 2, N)
  }

  // The verifier's rounds on a claim (x, y, t).
  predicate Checks(h: Hash5, x: nat, y: nat, t: nat, mus: seq<nat>, N: nat)
    requires N > 0
    decreases |mus|
  {
    if mus == [] then t == 1 && (x * x) % N == y
    else
      && 0 < mus[0] < N
      && Checks(h, FoldX(h, x, y, mus[0], t, N), FoldY(h, x, y, mus[0], t, N), t / 2, mus[1..], N)
  }

  predicate AllPositive(mus: seq<nat>) {
    forall i :: 0 <= i < |mus| ==> mus[i] > 0
  }

  /** provePietrzak. Besides its parameter checks it throws when a round starts from 0, which
      evaluateVdf refuses. */
  method ProvePietrzak(x: int, T: int, N: int, h: Hash5) returns (r: Option<PietrzakProof>)
    requires T < 0x8000_0000
    ensures r.Some? ==> N > 0 && x > 0 && T >= 2 && IsPowerOfTwo(T)
    ensures r.Some? ==> r.value.y == Pow(x, Pow2(T)) % N && r.value.mus == Mus(h, x % N, r.value.y, T, N)
    ensures N > 0 && x > 0 && T >= 2 && IsPowerOfTwo(T) && AllPositive(Mus(h, x % N, Pow(x, Pow2(T)) % N, T, N)) ==> r.Some?
  {
    hide FoldX, FoldY, Midpoint;
    if N <= 0 || x <= 0 { return None; }
    if T > 0 { BitTest(T); }
    if T < 2 || BitAnd(T, T - 1) != 0 { return None; }
    var xMod := x % N;
    CongMod(x, N);
    CongPow(xMod, x, Pow2(T), N);
    ghost var all := Mus(h, xMod, Pow(x, Pow2(T)) % N, T, N);
    if xMod == 0 { MidpointOfZero(T, N); }
    var y := EvaluateVdf(xMod, T, N);
    if y.None? { assert all[0] == 0; return None; }
    var mus: seq<nat> := [];
    var curX: nat, curY: nat, curT: nat := xMod, y.value, T;
    while curT > 1
      invariant curT >= 1
      invariant mus + Mus(h, curX, curY, curT, N) == all
    {
      var half := curT / 2;
      var mu := EvaluateVdf(curX, half, N);
      ghost var rest := Mus(h, curX, curY, curT, N);
      if curX == 0 { MidpointOfZero(curT, N); }
      if mu.None? { assert all[|mus|] == rest[0] == 0; return None; }
      MidpointIs(curX, curT, N);
      mus := mus + [mu.value];
      var foldedX, foldedY := FoldRound(h, curX, curY, mu.value, curT, N);
      curX, curY, curT := foldedX, foldedY, half;
    }
    return Some(PietrzakProof(y.value, mus));
  }

  lemma MidpointIs(x: nat, t: nat, N: nat)
    requires N > 0
    ensures Midpoint(x, t, N) == Pow(x, Pow2(t / 2)) % N
  {}

  lemma MidpointOfZero(t: nat, N: nat)
    requires N > 0
    ensures Midpoint(0, t, N) == 0
  {
    assert Pow(0, Pow2(t / 2)) == 0;
    RemainderUnique(0, N, 0, 0);
  }

  /** One folding round, as both prover and verifier compute it. */
  method FoldRound(h: Hash5, curX: nat, curY: nat, mu: nat, t: nat, N: nat) returns (x: nat, y: nat)
    requires N > 0
    ensures x == FoldX(h, curX, curY, mu, t, N) && y == FoldY(h, curX, curY, mu, t, N)
  {
    var r := Round(h, curX, curY, mu, t, N);
    var a := ModPow(curX, r, N);
    ModMulLeft(Pow(curX, r), mu, N);
    x := (a * mu) % N;
    var b := ModPow(mu, r, N);
    ModMulLeft(Pow(mu, r), curY, N);
    y := (b * curY) % N;
  }

  // The claim after the first i rounds: x and y folded with the proof's midpoints, t halved.
  function Folded(h: Hash5, x: nat, y: nat, t: nat, mus: seq<nat>, i: nat, N: nat): (c: Claim)
    requires N > 0 && i <= |mus|
    ensures i > 0 ==> c.x < N && c.y < N
  {
    hide FoldX, FoldY;
    if i == 0 then Claim(x, y, t)
    else
      var c := Folded(h, x, y, t, mus, i - 1, N);
      Claim(FoldX(h, c.x, c.y, mus[i - 1], c.t, N), FoldY(h, c.x, c.y, mus[i - 1], c.t, N), c.t / 2)
  }

  lemma {:induction false} FoldedTail(h: Hash5, x: nat, y: nat, t: nat, mus: seq<nat>, i: nat, N: nat)
    requires N > 0 && 0 < i <= |mus|
    ensures Folded(h, x, y, t, mus, i, N)
         == Folded(h, FoldX(h, x, y, mus[0], t, N), FoldY(h, x, y, mus[0], t, N), t / 2, mus[1..], i - 1, N)
  {
    hide FoldX, FoldY;
    if i == 1 {
      assert Folded(h, x, y, t, mus, 0, N) == Claim(x, y, t);
    } else {
      FoldedTail(h, x, y, t, mus, i - 1, N);
      assert mus[1..][i - 2] == mus[i - 1];
    }
  }

  // The verdict of the verifier on arbitrary public parameters and proofs.
  predicate PietrzakAccepts(x: nat, T: int, N: nat, proof: PietrzakProof, h: Hash5)
    requires N > 0
  {
    T >= 2 && IsPowerOfTwo(T) && |proof.mus| == Rounds(T) && Checks(h, x % N, proof.y % N, T, proof.mus, N)
  }

  lemma {:induction false} ChecksAreFolds(h: Hash5, x: nat, y: nat, t: nat, mus: seq<nat>, N: nat)
    requires N > 0 && y < N
    ensures Checks(h, x, y, t, mus, N)
       <==> && (forall i :: 0 <= i < |mus| ==> 0 < mus[i] < N)
            && var c := Folded(h, x, y, t, mus, |mus|, N);
               c.t == 1 && Cong(c.y, c.x * c.x, N)
    decreases |mus|
  {
    hide FoldX, FoldY;
    if mus == [] {
      RemainderUnique(y, N, 0, y);
    } else {
      FoldedTail(h, x, y, t, mus, |mus|, N);
      ChecksAreFolds(h, FoldX(h, x, y, mus[0], t, N), FoldY(h, x, y, mus[0], t, N), t / 2, mus[1..], N);
      assert mus == [mus[0]] + mus[1..];
    }
  }

  // Halving a power of two as often as the verifier does ends at 1.
  lemma {:induction false} FoldedEnds(h: Hash5, x: nat, y: nat, t: nat, mus: seq<nat>, N: nat)
    requires N > 0 && IsPowerOfTwo(t) && |mus| == Rounds(t)
    ensures Folded(h, x, y, t, mus, |mus|, N).t == 1
    decreases t
  {
    hide FoldX, FoldY;
    if t > 1 {
      FoldedTail(h, x, y, t, mus, |mus|, N);
      FoldedEnds(h, FoldX(h, x, y, mus[0], t, N), FoldY(h, x, y, mus[0], t, N), t / 2, mus[1..], N);
    }
  }

  /** For arbitrary proofs: accepted means parameters and midpoints in range and, for the pair folded with the
      midpoints, y congruent to the square of x. */
  lemma AcceptsExactly(x: nat, T: int, N: nat, proof: PietrzakProof, h: Hash5)
    requires N > 0
    ensures PietrzakAccepts(x, T, N, proof, h)
       <==> && T >= 2 && IsPowerOfTwo(T) && |proof.mus| == Rounds(T)
            && (forall i :: 0 <= i < |proof.mus| ==> 0 < proof.mus[i] < N)
            && var c := Folded(h, x % N, proof.y % N, T, proof.mus, |proof.mus|, N);
               Cong(c.y, c.x * c.x, N)
  {
    hide Checks, Folded;
    ChecksAreFolds(h, x % N, proof.y % N, if T < 0 then 0 else T, proof.mus, N);
    if T >= 2 && IsPowerOfTwo(T) && |proof.mus| == Rounds(T) {
      FoldedEnds(h, x % N, proof.y % N, T, proof.mus, N);
    }
  }

  /** verifyPietrzak; a non-positive N throws. */
  method VerifyPietrzak(x: nat, T: int, N: int, proof: PietrzakProof, h: Hash5) returns (r: Option<bool>)
    requires T < 0x8000_0000
    ensures r == if N <= 0 then None else Some(PietrzakAccepts(x, T, N, proof, h))
    ensures r == Some(true) ==>
              && T >= 2 && IsPowerOfTwo(T) && |proof.mus| == Rounds(T)
              && (forall i :: 0 <= i < |proof.mus| ==> 0 < proof.mus[i] < N)
              && var c := Folded(h, x % N, proof.y % N, T, proof.mus, |proof.mus|, N);
                 Cong(c.y, c.x * c.x, N)
  {
    if N > 0 { AcceptsExactly(x, T, N, proof, h); }
    hide FoldX, FoldY, Rounds, Folded, Cong;
    if N <= 0 { return None; }
    if T > 0 { BitTest(T); }
    if T < 2 || BitAnd(T, T - 1) != 0 { return Some(false); }
    if |proof.mus| != Rounds(T) { return Some(false); }
    var curX: nat, curY: nat, curT: nat := x % N, proof.y % N, T;
    ghost var verdict := Checks(h, curX, curY, curT, proof.mus, N);
    assert proof.mus[0..] == proof.mus;
    for i := 0 to |proof.mus|
      invariant Checks(h, curX, curY, curT, proof.mus[i..], N) == verdict
    {
      var mu := proof.mus[i];
      assert proof.mus[i..][1..] == proof.mus[i + 1..];
      if mu <= 0 || mu >= N { return Some(false); }
      var foldedX, foldedY := FoldRound(h, curX, curY, mu, curT, N);
      curX, curY, curT := foldedX, foldedY, curT / 2;
    }
    return Some(curT == 1 && (curX * curX) % N == curY);
  }

  // One round turns a true claim y = x^(2^t) into a true claim about t / 2.
  lemma RoundKeepsClaim(h: Hash5, x: nat, y: nat, t: nat, N: nat)
    requires N > 0 && t > 1 && t % 2 == 0 && Cong(y, Pow(x, Pow2(t)), N)
    ensures var mu := Midpoint(x, t, N);
            Cong(FoldY(h, x, y, mu, t, N), Pow(FoldX(h, x, y, mu, t, N), Pow2(t / 2)), N)
  {
    var mu := Midpoint(x, t, N);
    FoldIdentity(x, y, mu, Pow2(t / 2), Round(h, x, y, mu, t, N), N) by {
      Pow2Square(t / 2);
      CongMod(Pow(x, Pow2(t / 2)), N);
    }
  }

  lemma {:induction false} Pow2Sum(a: nat, b: nat)
    ensures Pow2(a + b) == Pow2(a) * Pow2(b)
  {
    if a != 0 { Pow2Sum(a - 1, b); }
  }

  lemma Pow2Square(k: nat)
    ensures Pow2(2 * k) == Pow2(k) * Pow2(k)
  {
    hide Pow2;
    Pow2Sum(k, k);
    assert k + k == 2 * k;
  }

  // (x^r * mu)^s = mu^r * y when mu = x^s and y = x^(s * s)
  lemma FoldIdentity(x: nat, y: nat, mu: nat, s: nat, r: nat, n: nat)
    requires n > 0 && Cong(mu, Pow(x, s), n) && s * s >= 0 && Cong(y, Pow(x, s * s), n)
    ensures Cong((Pow(mu, r) * y) % n, Pow((Pow(x, r) * mu) % n, s), n)
  {
    CongMod(Pow(x, r) * mu, n);
    CongPow((Pow(x, r) * mu) % n, Pow(x, r) * mu, s, n);
    PowOfProduct(Pow(x, r), mu, s);
    PowMul(x, r, s);
    PowMul(x, s, r);
    assert r * s == s * r;
    CongPow(mu, Pow(x, s), r, n);
    CongPow(mu, Pow(x, s), s, n);
    PowMul(x, s, s);
    CongMul(Pow(mu, r), Pow(x, r * s), y, Pow(mu, s), n);
    CongMul(Pow(x, r * s), Pow(x, r * s), y, Pow(mu, s), n);
    CongMod(Pow(mu, r) * y, n);
  }

  /** On a true claim the verifier's rounds accept the honest midpoints exactly when none is 0. */
  lemma {:induction false} HonestMusCheck(h: Hash5, x: nat, y: nat, t: nat, N: nat)
    requires N > 0 && y < N && IsPowerOfTwo(t) && Cong(y, Pow(x, Pow2(t)), N)
    ensures Checks(h, x, y, t, Mus(h, x, y, t, N), N) <==> AllPositive(Mus(h, x, y, t, N))
    decreases t
  {
    hide FoldX, FoldY;
    var mus := Mus(h, x, y, t, N);
    if t == 1 {
      assert Pow2(1) == 2 && Pow(x, 2) == x * Pow(x, 1) == x * (x * Pow(x, 0));
      RemainderUnique(y, N, 0, y);
    } else {
      var mu := Midpoint(x, t, N);
      RoundKeepsClaim(h, x, y, t, N);
      HonestMusCheck(h, FoldX(h, x, y, mu, t, N), FoldY(h, x, y, mu, t, N), t / 2, N);
      assert mus[1..] == Mus(h, FoldX(h, x, y, mu, t, N), FoldY(h, x, y, mu, t, N), t / 2, N);
      assert mus == [mu] + mus[1..];
      hide Midpoint;
      assert AllPositive(mus) <==> mu > 0 && AllPositive(mus[1..]);
    }
  }

  /** Pietrzak completeness is exact: for any challenge hash the honest proof is accepted if and
      only if every midpoint is nonzero modulo N. */
  lemma PietrzakCompleteExactly(x: nat, T: nat, N: nat, h: Hash5, proof: PietrzakProof)
    requires N > 0 && T >= 2 && IsPowerOfTwo(T)
    requires proof.y == Pow(x, Pow2(T)) % N && proof.mus == Mus(h, x % N, proof.y, T, N)
    ensures PietrzakAccepts(x, T, N, proof, h) <==> AllPositive(proof.mus)
  {
    CongMod(x, N);
    CongPow(x % N, x, Pow2(T), N);
    CongMod(Pow(x, Pow2(T)), N);
    RemainderUnique(proof.y, N, 0, proof.y);
    HonestMusCheck(h, x % N, proof.y, T, N);
  }

  // ----- when no midpoint can vanish -----

  ghost predicate Coprime(x: nat, N: nat) {
    forall d :: d > 1 && N % d == 0 ==> x % d != 0
  }

  lemma PrimeFactor(n: nat) returns (p: nat)
    requires n > 1
    ensures IsPrime(p) && n % p == 0
  {
    p := 2;
    RemainderUnique(n, n, 1, 0);
    while n % p != 0
      invariant 2 <= p <= n
      invariant forall d :: 1 < d < p ==> n % d != 0
      decreases n - p
    {
      p := p + 1;
    }
    forall d | 1 < d < p
      ensures p % d != 0
    {
      if p % d == 0 { DividesTransitive(d, p, n); }
    }
  }

  lemma DividesTransitive(d: nat, p: nat, n: nat)
    requires d > 0 && p > 0 && p % d == 0 && n % p == 0
    ensures n % d == 0
  {
    assert n == (n / p) * p + 0 && p == (p / d) * d + 0;
    assert n == ((n / p) * (p / d)) * d by {
      assert (n / p) * ((p / d) * d) == ((n / p) * (p / d)) * d;
    }
    AddMultiple(0, (n / p) * (p / d), d);
  }

  // Reducing modulo N does not disturb remainders modulo a factor of N.
  lemma ModFactor(a: nat, N: nat, p: nat)
    requires N > 0 && p > 0 && N % p == 0
    ensures (a % N) % p == a % p
  {
    var k := (a / N) * (N / p);
    assert N == (N / p) * p + 0;
    assert a == (a / N) * N + a % N;
    assert (a / N) * ((N / p) * p) == k * p;
    CongFromMultiple(a, a % N, k, p);
  }

  lemma {:induction false} MidpointsNonzero(h: Hash5, x: nat, y: nat, t: nat, N: nat, p: nat)
    requires N > 0 && IsPrime(p) && N % p == 0 && x % p != 0
    ensures AllPositive(Mus(h, x, y, t, N))
    decreases t
  {
    hide FoldY;
    if t > 1 {
      var mu := Midpoint(x, t, N);
      PowerNonzero(x, Pow2(t / 2), N, p);
      FoldNonzero(h, x, y, mu, t, N, p);
      hide FoldX;
      MidpointsNonzero(h, FoldX(h, x, y, mu, t, N), FoldY(h, x, y, mu, t, N), t / 2, N, p);
    }
  }

  lemma PowerNonzero(x: nat, e: nat, N: nat, p: nat)
    requires N > 0 && IsPrime(p) && N % p == 0 && x % p != 0
    ensures (Pow(x, e) % N) % p != 0 && Pow(x, e) % N > 0
  {
    PowPositiveOrZero(x, e);
    ModFactor(Pow(x, e), N, p);
    if Pow(x, e) % p == 0 { EuclidPow(x, e, p); }
    RemainderUnique(0, p, 0, 0);
  }

  lemma FoldNonzero(h: Hash5, x: nat, y: nat, mu: nat, t: nat, N: nat, p: nat)
    requires N > 0 && IsPrime(p) && N % p == 0 && x % p != 0 && mu % p != 0
    ensures FoldX(h, x, y, mu, t, N) % p != 0
  {
    var r := Round(h, x, y, mu, t, N);
    PowPositiveOrZero(x, r);
    MulMonotone(0, Pow(x, r), mu);
    ModFactor(Pow(x, r) * mu, N, p);
    if (Pow(x, r) * mu) % p == 0 {
      EuclidLemma(Pow(x, r), mu, p);
      if Pow(x, r) % p == 0 { EuclidPow(x, r, p); }
    }
  }

  /** Completeness for units: if x is coprime to N > 1, every midpoint is nonzero, so the prover
      cannot throw and its proof is accepted, whatever the challenge hash. */
  lemma PietrzakCompleteForUnits(x: nat, T: nat, N: nat, h: Hash5, proof: PietrzakProof)
    requires N > 1 && Coprime(x, N) && T >= 2 && IsPowerOfTwo(T)
    requires proof.y == Pow(x, Pow2(T)) % N && proof.mus == Mus(h, x % N, proof.y, T, N)
    ensures AllPositive(proof.mus) && PietrzakAccepts(x, T, N, proof, h)
  {
    var p := PrimeFactor(N);
    ModFactor(x, N, p);
    MidpointsNonzero(h, x % N, proof.y, T, N, p);
    PietrzakCompleteExactly(x, T, N, h, proof);
  }

  // ----- what acceptance means -----

  lemma PrimeDivisor(d: nat, N: nat) returns (p: nat)
    requires N > 0 && d > 1 && N % d == 0
    ensures IsPrime(p) && d % p == 0 && N % p == 0
  {
    p := PrimeFactor(d);
    DividesTransitive(p, d, N);
  }

  lemma CoprimeTimes(a: nat, b: nat, N: nat)
    requires N > 0 && Coprime(a, N) && Coprime(b, N)
    ensures a * b >= 0 && Coprime(a * b, N)
  {
    MulMonotone(0, a, b);
    forall d | d > 1 && N % d == 0
      ensures (a * b) % d != 0
    {
      if (a * b) % d == 0 {
        var p := PrimeDivisor(d, N);
        if a * b > 0 { DividesTransitive(p, d, a * b); } else { RemainderUnique(0, p, 0, 0); }
        EuclidLemma(a, b, p);
      }
    }
  }

  lemma {:induction false} CoprimePow(a: nat, e: nat, N: nat)
    requires N > 0 && Coprime(a, N)
    ensures Pow(a, e) >= 0 && Coprime(Pow(a, e), N)
  {
    if e == 0 {
      forall d | d > 1 && N % d == 0 ensures 1 % d != 0 {
        RemainderUnique(1, d, 0, 1);
      }
    } else {
      CoprimePow(a, e - 1, N);
      CoprimeTimes(a, Pow(a, e - 1), N);
    }
  }

  lemma CoprimeMod(a: nat, N: nat)
    requires N > 0 && Coprime(a, N)
    ensures Coprime(a % N, N)
  {
    forall d | d > 1 && N % d == 0 ensures (a % N) % d != 0 {
      ModFactor(a, N, d);
    }
  }

  // A factor coprime to N cancels modulo N, whether or not N is prime.
  lemma {:induction false} UnitCancels(u: nat, c: int, N: nat)
    requires N > 0 && Coprime(u, N) && (u * c) % N == 0
    ensures c % N == 0
    decreases N
  {
    if N > 1 {
      var p := PrimeFactor(N);
      Multiple(u * c, N);
      Multiple(N, p);
      var n, k := N / p, (u * c) / N;
      assert u * c == (k * n) * p by { assert k * (n * p) == (k * n) * p; }
      AddMultiple(0, k * n, p);
      RemainderUnique(0, p, 0, 0);
      EuclidLemma(u, c, p);
      Multiple(c, p);
      var c' := c / p;
      assert (u * c') * p == (k * n) * p by { assert u * (c' * p) == (u * c') * p; }
      SameFactor(u * c', k * n, p);
      SmallerModulus(n, p, N);
      AddMultiple(0, k, n);
      RemainderUnique(0, n, 0, 0);
      CoprimeFactor(u, n, p, N);
      UnitCancels(u, c', n);
      Multiple(c', n);
      var j := c' / n;
      assert c == j * N by { assert (j * n) * p == j * (n * p); }
      AddMultiple(0, j, N);
      RemainderUnique(0, N, 0, 0);
    } else {
      RemainderUnique(c, 1, c, 0);
    }
  }

  lemma Multiple(a: int, m: int)
    requires m > 0 && a % m == 0
    ensures a == (a / m) * m
  {}

  lemma SameFactor(a: int, b: int, p: int)
    requires p > 0 && a * p == b * p
    ensures a == b
  {
    assert (a - b) * p == a * p - b * p && (b - a) * p == b * p - a * p;
    if a > b { MulPositive(a - b, p); }
    if b > a { MulPositive(b - a, p); }
  }

  lemma SmallerModulus(n: int, p: int, N: int)
    requires p > 1 && N > 0 && N == n * p
    ensures 0 < n < N
  {
    if n <= 0 { MulMonotone(n, 0, p); }
    MulPositive(n, p - 1);
    assert n * (p - 1) == N - n;
  }

  lemma CoprimeFactor(u: nat, n: nat, p: nat, N: nat)
    requires n > 0 && p > 0 && N == n * p && Coprime(u, N)
    ensures Coprime(u, n)
  {
    forall d | d > 1 && n % d == 0 ensures u % d != 0 {
      AddMultiple(0, p, n);
      assert N == p * n;
      RemainderUnique(0, n, 0, 0);
      if N > 0 { DividesTransitive(d, n, N); }
    }
  }

  // Two values that a unit makes congruent are congruent.
  lemma CancelUnit(u: nat, a: int, b: int, N: nat)
    requires N > 0 && Coprime(u, N) && Cong(u * a, u * b, N)
    ensures Cong(a, b, N)
  {
    CongZeroSub(u * a, u * b, N);
    assert u * (a - b) == u * a - u * b;
    UnitCancels(u, a - b, N);
    CongZeroSub(a, b, N);
  }

  // With a midpoint that is x^s, folding makes no false claim true: for units the round is an equivalence.
  lemma ClaimBack(x: nat, y: nat, mu: nat, s: nat, r: nat, N: nat)
    requires N > 0 && Coprime(x, N) && Cong(mu, Pow(x, s), N)
    requires Cong((Pow(mu, r) * y) % N, Pow((Pow(x, r) * mu) % N, s), N)
    ensures s * s >= 0 && Cong(y, Pow(x, s * s), N)
  {
    MulMonotone(0, s, s);
    PowPositiveOrZero(x, s * s);
    var honest := Pow(x, s * s);
    PowPositiveOrZero(x, s);
    PowPositiveOrZero(mu, r);
    PowPositiveOrZero(x, r);
    MulMonotone(0, Pow(x, r), mu);
    FoldIdentity(x, honest, mu, s, r, N);
    CongMod(Pow(mu, r) * y, N);
    CongMod(Pow(mu, r) * honest, N);
    CoprimePow(x, s, N);
    CoprimeCong(Pow(x, s), mu, N);
    CoprimePow(mu, r, N);
    CancelUnit(Pow(mu, r), y, honest, N);
  }

  lemma CoprimeCong(a: nat, b: nat, N: nat)
    requires N > 0 && Coprime(a, N) && Cong(b, a, N)
    ensures Coprime(b, N)
  {
    forall d | d > 1 && N % d == 0 ensures b % d != 0 {
      ModFactor(a, N, d);
      ModFactor(b, N, d);
    }
  }

  lemma FoldCoprime(h: Hash5, x: nat, y: nat, mu: nat, t: nat, N: nat)
    requires N > 0 && Coprime(x, N) && Coprime(mu, N)
    ensures Coprime(FoldX(h, x, y, mu, t, N), N)
  {
    var r := Round(h, x, y, mu, t, N);
    CoprimePow(x, r, N);
    CoprimeTimes(Pow(x, r), mu, N);
    CoprimeMod(Pow(x, r) * mu, N);
  }

  lemma MidpointCoprime(x: nat, t: nat, N: nat)
    requires N > 0 && Coprime(x, N)
    ensures Coprime(Midpoint(x, t, N), N)
  {
    CoprimePow(x, Pow2(t / 2), N);
    CoprimeMod(Pow(x, Pow2(t / 2)), N);
  }

  /** The rounds accept honest midpoints only for a true claim. */
  lemma {:induction false} ChecksOnlyTruth(h: Hash5, x: nat, y: nat, t: nat, N: nat)
    requires N > 0 && y < N && Coprime(x, N) && IsPowerOfTwo(t)
    requires Checks(h, x, y, t, Mus(h, x, y, t, N), N)
    ensures Cong(y, Pow(x, Pow2(t)), N)
    decreases t
  {
    hide FoldX, FoldY, Coprime;
    if t == 1 {
      assert Pow2(1) == 2 && Pow(x, 2) == x * Pow(x, 1) == x * (x * Pow(x, 0));
      CongMod(x * x, N);
    } else {
      var mu := Midpoint(x, t, N);
      MidpointCoprime(x, t, N);
      FoldCoprime(h, x, y, mu, t, N);
      assert Mus(h, x, y, t, N)[1..] == Mus(h, FoldX(h, x, y, mu, t, N), FoldY(h, x, y, mu, t, N), t / 2, N);
      ChecksOnlyTruth(h, FoldX(h, x, y, mu, t, N), FoldY(h, x, y, mu, t, N), t / 2, N);
      RoundOnlyTruth(h, x, y, t, N);
    }
  }

  lemma RoundOnlyTruth(h: Hash5, x: nat, y: nat, t: nat, N: nat)
    requires N > 0 && t > 1 && t % 2 == 0 && Coprime(x, N)
    requires var mu := Midpoint(x, t, N);
             Cong(FoldY(h, x, y, mu, t, N), Pow(FoldX(h, x, y, mu, t, N), Pow2(t / 2)), N)
    ensures Cong(y, Pow(x, Pow2(t)), N)
  {
    var mu := Midpoint(x, t, N);
    CongMod(Pow(x, Pow2(t / 2)), N);
    Pow2Square(t / 2);
    ClaimBack(x, y, mu, Pow2(t / 2), Round(h, x, y, mu, t, N), N);
  }

  /** The verdict on honest midpoints is the truth of the claim: for x coprime to N > 1 and whatever value y is
      claimed, the proof is accepted if and only if y is x^(2^T) modulo N. */
  lemma PietrzakAcceptsOnlyTruth(x: nat, T: nat, N: nat, h: Hash5, proof: PietrzakProof)
    requires N > 1 && Coprime(x, N) && T >= 2 && IsPowerOfTwo(T)
    requires proof.mus == Mus(h, x % N, proof.y % N, T, N)
    ensures PietrzakAccepts(x, T, N, proof, h) <==> Cong(proof.y, Pow(x, Pow2(T)), N)
  {
    hide Checks, Mus, Coprime;
    CoprimeMod(x, N);
    CongMod(x, N);
    CongMod(proof.y, N);
    CongPow(x % N, x, Pow2(T), N);
    if PietrzakAccepts(x, T, N, proof, h) {
      ChecksOnlyTruth(h, x % N, proof.y % N, T, N);
    }
    if Cong(proof.y, Pow(x, Pow2(T)), N) {
      var honest := PietrzakProof(proof.y % N, proof.mus);
      RemainderUnique(proof.y % N, N, 0, proof.y % N);
      PietrzakCompleteForUnits(x, T, N, h, honest);
    }
  }

  /** Why a false claim survives a round only by luck: if two different challenges r1 < r2 both turn it into a
      true one, the midpoint is not x^s, yet its (r2 - r1)-th power is that of x^s. */
  lemma TwoChallenges(x: nat, y: nat, mu: nat, s: nat, r1: nat, r2: nat, N: nat)
    requires N > 0 && Coprime(x, N) && Coprime(mu, N) && r1 < r2
    requires s * s >= 0 && !Cong(y, Pow(x, s * s), N)
    requires Cong((Pow(mu, r1) * y) % N, Pow((Pow(x, r1) * mu) % N, s), N)
    requires Cong((Pow(mu, r2) * y) % N, Pow((Pow(x, r2) * mu) % N, s), N)
    ensures !Cong(mu, Pow(x, s), N)
    ensures Cong(Pow(mu, r2 - r1), Pow(Pow(x, s), r2 - r1), N)
  {
    hide Coprime;
    if Cong(mu, Pow(x, s), N) { ClaimBack(x, y, mu, s, r1, N); }
    var a, d := Pow(x, s), r2 - r1;
    LuckyRound(x, y, mu, s, r1, N);
    LuckyRound(x, y, mu, s, r2, N);
    CoprimePow(x, s, N);
    CoprimePow(a, r1, N);
    CoprimePow(mu, s, N);
    CoprimeTimes(Pow(a, r1), Pow(mu, s), N);
    PowAdd(mu, d, r1);
    PowAdd(a, d, r1);
    hide Cong, Pow;
    TwoLucky(Pow(mu, d), Pow(mu, r1), y, Pow(a, d), Pow(a, r1), Pow(mu, s), N);
    CancelUnit(Pow(a, r1) * Pow(mu, s), Pow(mu, d), Pow(a, d), N);
  }

  lemma TwoLucky(v: int, w: int, y: int, a: int, b: int, c: int, N: nat)
    requires N > 0 && Cong(w * y, b * c, N) && Cong((v * w) * y, (a * b) * c, N)
    ensures Cong((b * c) * v, (b * c) * a, N)
  {
    CongMul(v, v, w * y, b * c, N);
    assert v * (w * y) == (v * w) * y;
    assert (a * b) * c == (b * c) * a;
    assert v * (b * c) == (b * c) * v;
  }

  // A true folded claim, in terms of x^s.
  lemma LuckyRound(x: nat, y: nat, mu: nat, s: nat, r: nat, N: nat)
    requires N > 0 && Cong((Pow(mu, r) * y) % N, Pow((Pow(x, r) * mu) % N, s), N)
    ensures Cong(Pow(mu, r) * y, Pow(Pow(x, s), r) * Pow(mu, s), N)
  {
    CongMod(Pow(mu, r) * y, N);
    CongMod(Pow(x, r) * mu, N);
    CongPow((Pow(x, r) * mu) % N, Pow(x, r) * mu, s, N);
    PowOfProduct(Pow(x, r), mu, s);
    PowMul(x, r, s);
    PowMul(x, s, r);
    assert r * s == s * r;
  }

  // pi^l * x^e = y * (x^(e div l))^l modulo N.
  ghost predicate IsRoot(pi: nat, l: nat, x: nat, e: nat, y: nat, N: nat)
    requires N > 0 && l > 0
  {
    Cong(Pow(pi, l) * Pow(x, e), y * Pow(Pow(x, e / l), l), N)
  }

  // The unit x^(e - e mod l) on both sides of the equation.
  lemma RootOfUnit(x: nat, e: nat, l: nat, pi: nat, y: nat, N: nat)
    requires N > 0 && l > 0 && Coprime(x, N)
    ensures Cong(Pow(pi, l) * Pow(x, e % l), y, N) <==> IsRoot(pi, l, x, e, y, N)
  {
    hide Coprime, Pow, Cong;
    var q, r := e / l, e % l;
    assert e == q * l + r;
    MulMonotone(0, q, l);
    PowMul(x, q, l);
    PowAdd(x, q * l, r);
    var u, v, w := Pow(x, q * l), Pow(pi, l), Pow(x, r);
    CoprimePow(x, q * l, N);
    assert v * (u * w) == u * (v * w);
    assert y * u == u * y;
    UnitBothSides(u, v * w, y, N);
  }

  lemma UnitBothSides(u: nat, a: int, b: int, N: nat)
    requires N > 0 && Coprime(u, N)
    ensures Cong(u * a, u * b, N) <==> Cong(a, b, N)
  {
    hide Coprime;
    if Cong(a, b, N) {
      CongMul(u, u, a, b, N);
    }
    if Cong(u * a, u * b, N) {
      CancelUnit(u, a, b, N);
    }
  }

  /** What Wesolowski acceptance means for x coprime to N: the challenge and its remainder are the recomputed
      ones, and pi^l * x^(2^T) = y * (x^(2^T div l))^l. So a value y other than x^(2^T) is accepted only with
      an l-th root of the factor it is wrong by. */
  lemma WesolowskiRoot(x: nat, T: nat, N: nat, proof: WesolowskiProof, h: Hash4)
    requires N > 0 && Coprime(x, N)
    ensures WesolowskiAccepts(x, T, N, proof, h)
       <==> && proof.l == Challenge(h, x % N, proof.y, T, N) && proof.r == Pow2(T) % proof.l
            && IsRoot(proof.pi, proof.l, x, Pow2(T), proof.y, N)
  {
    hide Challenge, Coprime, Pow, IsRoot;
    if proof.l == Challenge(h, x % N, proof.y, T, N) {
      RootOfUnit(x, Pow2(T), proof.l, proof.pi, proof.y, N);
    }
  }

  /** With the honest quotient power, the verdict is the truth of the claim, for every x and N. */
  lemma WesolowskiAcceptsOnlyTruth(x: nat, T: nat, N: nat, proof: WesolowskiProof, h: Hash4)
    requires N > 0 && proof.l == Challenge(h, x % N, proof.y, T, N) && proof.r == Pow2(T) % proof.l
    requires proof.pi == PowerOf(x, Pow2(T) / proof.l, N)
    ensures WesolowskiAccepts(x, T, N, proof, h) <==> Cong(proof.y, Pow(x, Pow2(T)), N)
  {
    hide Challenge;
    QuotientEquation(x, Pow2(T), proof.l, N);
  }
}

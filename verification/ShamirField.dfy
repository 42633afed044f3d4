/** Secret sharing over GF(2^127 - 1) in src/core/crypto/proactiveSecretSharing.ts: splitting, combining and
    whole refresh rounds. The field's order is assumed prime where inverses are taken. */
module ShamirField {
  import opened Numbers
  import opened Polynomials

  const PRIME: nat := 0x7FFF_FFFF_FFFF_FFFF_FFFF_FFFF_FFFF_FFFF

  // y is reduced where the code reduces it; nothing else is assumed about shares handed in.
  datatype Share = Share(x: int, y: int)

  datatype Result<T> = Ok(value: T) | Error

  // mod adds the prime to a negative remainder, so it is the non-negative residue.
  function Mod(v: int): (r: nat)
    ensures r < PRIME && Cong(r, v, PRIME)
  {
    CongMod(v, PRIME);
    v % PRIME
  }

  // ----- polynomials -----

  ghost predicate OnPolynomial(p: seq<int>, s: Share) {
    Cong(s.y, Eval(p, s.x), PRIME)
  }

  // The shares lie on one polynomial of at most threshold coefficients.
  ghost predicate IsSharing(p: seq<int>, shares: seq<Share>, threshold: int) {
    1 <= |p| <= threshold && forall i :: 0 <= i < |shares| ==> OnPolynomial(p, shares[i])
  }

  function Xs(shares: seq<Share>): (xs: seq<int>)
    ensures |xs| == |shares| && forall i :: 0 <= i < |shares| ==> xs[i] == shares[i].x
  {
    seq(|shares|, i requires 0 <= i < |shares| => shares[i].x)
  }

  function Ys(shares: seq<Share>): (ys: seq<int>)
    ensures |ys| == |shares| && forall i :: 0 <= i < |shares| ==> ys[i] == shares[i].y
  {
    seq(|shares|, i requires 0 <= i < |shares| => shares[i].y)
  }

  // The random coefficients are arbitrary field elements.
  method MakeRandomPolynomial(intercept: int, degree: int, random: seq<nat>) returns (r: Result<seq<nat>>)
    requires degree >= 0 ==> |random| == degree
    ensures r.Error? <==> degree < 0
    ensures r.Ok? ==> r.value == [Mod(intercept)] + random
  {
    if degree < 0 {
      return Error;
    }
    var coeffs := [Mod(intercept)];
    for i := 0 to degree
      invariant coeffs == [Mod(intercept)] + random[..i]
    {
      coeffs := coeffs + [random[i]];
    }
    assert random[..degree] == random;
    return Ok(coeffs);
  }

  method EvaluatePolynomial(coeffs: seq<int>, x: int) returns (r: nat)
    ensures r < PRIME && Cong(r, Eval(coeffs, x), PRIME)
  {
    hide Cong, Mod;
    r := 0;
    CongRefl(0, PRIME);
    assert coeffs[|coeffs|..] == [];
    var i := |coeffs|;
    while i > 0
      invariant 0 <= i <= |coeffs|
      invariant r < PRIME && Cong(r, Eval(coeffs[i..], x), PRIME)
    {
      i := i - 1;
      assert coeffs[i..][1..] == coeffs[i + 1..];
      HornerCong(r, Eval(coeffs[i + 1..], x), Mod(x), x, coeffs[i], PRIME);
      var v := r * Mod(x) + coeffs[i];
      ChainCong(Mod(v), v, Eval(coeffs[i..], x), PRIME);
      r := Mod(v);
    }
    assert coeffs[0..] == coeffs;
  }

  lemma CongRefl(a: int, q: int)
    requires q > 0
    ensures Cong(a, a, q)
  {}

  lemma ChainCong(a: int, b: int, c: int, q: int)
    requires q > 0 && Cong(a, b, q) && Cong(b, c, q)
    ensures Cong(a, c, q)
  {}

  lemma HornerCong(r: int, e: int, x: int, x': int, c: int, q: int)
    requires q > 0 && Cong(r, e, q) && Cong(x, x', q)
    ensures Cong(r * x + c, c + x' * e, q)
  {
    CongMul(r, e, x, x', q);
    assert e * x' == x' * e;
    CongAdd(r * x, e * x', c, c, q);
  }

  // ----- split -----

  method SplitSecret(secret: int, threshold: int, numShares: int, random: seq<nat>) returns (r: Result<seq<Share>>)
    requires threshold >= 1 ==> |random| == threshold - 1
    ensures r.Error? <==> threshold < 1 || threshold > numShares
    ensures r.Ok? ==>
              && |r.value| == numShares && (forall j :: 0 <= j < numShares ==> r.value[j].x == j + 1)
              && (forall j :: 0 <= j < numShares ==> 0 <= r.value[j].y < PRIME)
              && IsSharing([Mod(secret)] + random, r.value, threshold)
  {
    hide Mod, Eval, Cong;
    if threshold < 1 || threshold > numShares {
      return Error;
    }
    var poly := MakeRandomPolynomial(Mod(secret), threshold - 1, random);
    ModTwice(secret);
    var shares: seq<Share> := [];
    var j := 1;
    while j <= numShares
      invariant 1 <= j <= numShares + 1 && |shares| == j - 1
      invariant forall i :: 0 <= i < |shares| ==> shares[i].x == i + 1 && 0 <= shares[i].y < PRIME
      invariant forall i :: 0 <= i < |shares| ==> OnPolynomial(poly.value, shares[i])
    {
      var y := EvaluatePolynomial(poly.value, j);
      shares := shares + [Share(j, y)];
      j := j + 1;
    }
    return Ok(shares);
  }

  lemma ModTwice(v: int)
    ensures Mod(Mod(v)) == Mod(v)
  {}

  // ----- combine -----

  // slice(0, t): a negative end counts from the back.
  function Used<T>(s: seq<T>, t: int): (u: seq<T>)
    ensures 0 <= t <= |s| ==> |u| == t
  {
    if t >= 0 then (if t <= |s| then s[..t] else s)
    else if |s| + t >= 0 then s[..|s| + t] else []
  }

  // The product of the other points, times the inverse of the product of their distances.
  method LagrangeAtZero(used: seq<Share>, i: nat) returns (w: nat)
    requires IsPrime(PRIME) && i < |used|
    ensures w < PRIME
    ensures Distinct(Xs(used), PRIME) ==> IsWeight(Xs(used), i, w, PRIME)
  {
    hide Xs, Mod, Cong, IsWeight;
    ghost var xs := Xs(used);
    var numerator, denominator := 1, 1;
    CongRefl(1, PRIME);
    for j := 0 to |used|
      invariant Cong(numerator, ProductSkip(xs, i, j, 0), PRIME)
      invariant Cong(denominator, ProductSkip(xs, i, j, xs[i]), PRIME)
    {
      if i != j {
        ProductCong(numerator, ProductSkip(xs, i, j, 0), xs[j], PRIME);
        ProductCong(denominator, ProductSkip(xs, i, j, xs[i]), xs[j] - xs[i], PRIME);
        ChainCong(Mod(numerator * used[j].x), numerator * xs[j], ProductSkip(xs, i, j, 0) * (xs[j] - 0), PRIME);
        ChainCong(Mod(denominator * (used[j].x - used[i].x)), denominator * (xs[j] - xs[i]),
                  ProductSkip(xs, i, j, xs[i]) * (xs[j] - xs[i]), PRIME);
        numerator := Mod(numerator * used[j].x);
        denominator := Mod(denominator * (used[j].x - used[i].x));
      }
    }
    var inverse := PowMod(denominator, PRIME - 2, PRIME);
    w := Mod(numerator * inverse);
    if Distinct(xs, PRIME) {
      ProductSkipNonzero(xs, i, |xs|, PRIME);
      QuotientWeight(xs, i, numerator, denominator, inverse, w, PRIME);
    }
  }

  lemma ProductCong(a: int, b: int, x: int, q: int)
    requires q > 0 && Cong(a, b, q)
    ensures Cong(a * x, b * x, q)
  {
    CongMul(a, b, x, x, q);
  }

  lemma QuotientWeight(xs: seq<int>, i: nat, num: int, den: int, inv: int, w: int, q: int)
    requires IsPrime(q) && i < |xs| && ProductSkip(xs, i, |xs|, xs[i]) % q != 0
    requires Cong(num, ProductSkip(xs, i, |xs|, 0), q) && Cong(den, ProductSkip(xs, i, |xs|, xs[i]), q)
    requires inv == Pow(den, q - 2) % q && Cong(w, num * inv, q)
    ensures IsWeight(xs, i, w, q)
  {
    var d, z := ProductSkip(xs, i, |xs|, xs[i]), ProductSkip(xs, i, |xs|, 0);
    assert den % q != 0;
    InverseCancels(den, inv, q);
    WeightFromQuotient(w, num, inv, den, d, z, q);
    SolvesIs(w, d, z, q);
  }

  lemma InverseCancels(den: int, inv: int, q: int)
    requires IsPrime(q) && den % q != 0 && inv == Pow(den, q - 2) % q
    ensures Cong(den * inv, 1, q)
  {
    FermatInverse(den, q);
    CongMod(Pow(den, q - 2), q);
    CongMul(den, den, inv, Pow(den, q - 2), q);
  }

  lemma WeightFromQuotient(w: int, num: int, inv: int, den: int, d: int, z: int, q: int)
    requires q > 0 && Cong(den * inv, 1, q) && Cong(w, num * inv, q) && Cong(num, z, q) && Cong(den, d, q)
    ensures Cong(w * d, z, q)
  {
    CongSymmetric(den, d, q);
    CongMul(w, num * inv, d, den, q);
    CongMul(num, num, den * inv, 1, q);
    assert (num * inv) * den == num * (den * inv);
  }

  // Fewer shares than the threshold are refused; otherwise the first threshold shares, if their points differ,
  // give the constant term of every polynomial of at most threshold coefficients they lie on.
  method CombineShares(shares: seq<Share>, threshold: int) returns (r: Result<nat>)
    requires IsPrime(PRIME)
    ensures r.Error? <==> |shares| < threshold
    ensures r.Ok? ==> r.value < PRIME
    ensures r.Ok? && Distinct(Xs(Used(shares, threshold)), PRIME) ==>
              forall p :: IsSharing(p, Used(shares, threshold), threshold) ==> r.value == Mod(p[0])
  {
    if |shares| < threshold {
      return Error;
    }
    var used := Used(shares, threshold);
    var secret, ws := SumWeighted(used);
    hide Xs, Ys, Used, Mod, Cong, IsSharing, LagrangeWeights, WeightedSum, Distinct;
    if Distinct(Xs(used), PRIME) {
      forall p | IsSharing(p, used, threshold)
        ensures secret == Mod(p[0])
      {
        InterceptOf(p, used, ws, threshold, secret);
      }
    }
    return Ok(secret);
  }

  // The outer loop: every share's value times its weight.
  method SumWeighted(used: seq<Share>) returns (secret: nat, ghost ws: seq<int>)
    requires IsPrime(PRIME)
    ensures secret < PRIME && |ws| == |used| && Cong(secret, WeightedSum(Ys(used), ws, |used|), PRIME)
    ensures Distinct(Xs(used), PRIME) ==> LagrangeWeights(Xs(used), ws, PRIME)
  {
    secret, ws := 0, [];
    ghost var xs, ys := Xs(used), Ys(used);
    CongRefl(0, PRIME);
    assert WeightedSum(ys, ws, 0) == 0;
    hide Xs, Ys, Mod, Cong, IsWeight, WeightedSum, Distinct, IsPrime, ProductSkip;
    for i := 0 to |used|
      invariant |ws| == i && secret < PRIME
      invariant Distinct(xs, PRIME) ==> forall m :: 0 <= m < i ==> IsWeight(xs, m, ws[m], PRIME)
      invariant Cong(secret, WeightedSum(ys, ws, i), PRIME)
    {
      var w := LagrangeAtZero(used, i);
      var term := used[i].y * w;
      WeightedSumStep(ys, ws, w, i);
      AddTerm(secret, WeightedSum(ys, ws, i), term);
      ws := ws + [w];
      secret := Mod(secret + term);
    }
  }

  lemma AddTerm(secret: nat, sum: int, term: int)
    requires Cong(secret, sum, PRIME)
    ensures Cong(Mod(secret + term), sum + term, PRIME)
  {
    hide Cong, Mod;
    AddCong(secret, sum, term, PRIME);
    ChainCong(Mod(secret + term), secret + term, sum + term, PRIME);
  }

  lemma WeightedSumStep(ys: seq<int>, ws: seq<int>, w: int, m: nat)
    requires m == |ws| && m < |ys|
    ensures WeightedSum(ys, ws + [w], m + 1) == WeightedSum(ys, ws, m) + ys[m] * w
  {
    WeightedSumSnoc(ys, ws, w, m);
  }

  lemma AddCong(a: int, b: int, c: int, q: int)
    requires q > 0 && Cong(a, b, q)
    ensures Cong(a + c, b + c, q)
  {
    CongAdd(a, b, c, c, q);
  }

  lemma InterceptOf(p: seq<int>, used: seq<Share>, ws: seq<int>, threshold: int, secret: nat)
    requires IsPrime(PRIME) && Distinct(Xs(used), PRIME) && LagrangeWeights(Xs(used), ws, PRIME)
    requires IsSharing(p, used, threshold) && |used| >= threshold && secret < PRIME
    requires Cong(secret, WeightedSum(Ys(used), ws, |used|), PRIME)
    ensures secret == Mod(p[0])
  {
    var xs, ys := Xs(used), Ys(used);
    hide Xs, Ys;
    forall i | 0 <= i < |xs| ensures Cong(ys[i], Eval(p, xs[i]), PRIME) {
      assert OnPolynomial(p, used[i]);
    }
    Interpolation(p, xs, ys, ws, PRIME);
    ChainCong(secret, WeightedSum(ys, ws, |used|), p[0], PRIME);
    RemainderUnique(secret, PRIME, 0, secret);
  }

  // ----- refresh -----

  method GenerateZeroShares(threshold: int, points: seq<int>, random: seq<nat>) returns (r: Result<map<int, nat>>)
    requires threshold >= 1 ==> |random| == threshold - 1
    ensures r.Error? <==> threshold < 1
    ensures r.Ok? ==> forall x :: x in points ==>
              x in r.value && r.value[x] < PRIME && Cong(r.value[x], Eval([0] + random, x), PRIME)
  {
    hide Eval, Cong;
    var zeroPoly := MakeRandomPolynomial(0, threshold - 1, random);
    if zeroPoly.Error? {
      return Error;
    }
    assert Mod(0) == 0;
    var contributions: map<int, nat> := map[];
    for i := 0 to |points|
      invariant forall x :: x in points[..i] ==>
                  x in contributions && contributions[x] < PRIME && Cong(contributions[x], Eval([0] + random, x), PRIME)
    {
      var y := EvaluatePolynomial(zeroPoly.value, points[i]);
      contributions := contributions[points[i] := y];
    }
    assert points[..|points|] == points;
    return Ok(contributions);
  }

  function AddContribution(share: Share, contribution: int): Share {
    Share(share.x, Mod(share.y + contribution))
  }

  // A polynomial plus the first n zero-polynomials.
  function Refreshed(p: seq<int>, randoms: seq<seq<nat>>, n: nat): seq<int>
    requires n <= |randoms|
  {
    if n == 0 then p else Add(Refreshed(p, randoms, n - 1), [0] + randoms[n - 1])
  }

  lemma {:induction false} RefreshedShape(p: seq<int>, randoms: seq<seq<nat>>, n: nat, threshold: nat)
    requires n <= |randoms| && 1 <= |p| <= threshold && forall i :: 0 <= i < n ==> |randoms[i]| == threshold - 1
    ensures var r := Refreshed(p, randoms, n);
            1 <= |r| <= threshold && r[0] == p[0]
  {
    if n > 0 {
      RefreshedShape(p, randoms, n - 1, threshold);
    }
  }

  // Adding one contribution moves a share to the next polynomial.
  lemma ContributionMoves(p: seq<int>, randoms: seq<seq<nat>>, n: nat, s: Share, c: int)
    requires n < |randoms| && OnPolynomial(Refreshed(p, randoms, n), s)
    requires Cong(c, Eval([0] + randoms[n], s.x), PRIME)
    ensures OnPolynomial(Refreshed(p, randoms, n + 1), AddContribution(s, c))
  {
    var q, z := Refreshed(p, randoms, n), [0] + randoms[n];
    EvalAdd(q, z, s.x);
    CongAdd(s.y, Eval(q, s.x), c, Eval(z, s.x), PRIME);
    hide Eval, Cong;
    ChainCong(Mod(s.y + c), s.y + c, Eval(q, s.x) + Eval(z, s.x), PRIME);
  }

  // One share through all contributions.
  method RefreshShare(share: Share, contributions: seq<map<int, nat>>, ghost randoms: seq<seq<nat>>) returns (updated: Share)
    requires |contributions| == |randoms|
    requires forall i :: 0 <= i < |contributions| ==>
               share.x in contributions[i] && Cong(contributions[i][share.x], Eval([0] + randoms[i], share.x), PRIME)
    ensures updated.x == share.x
    ensures forall p :: OnPolynomial(p, share) ==> OnPolynomial(Refreshed(p, randoms, |randoms|), updated)
  {
    hide Eval, Cong, OnPolynomial;
    updated := share;
    for i := 0 to |contributions|
      invariant updated.x == share.x
      invariant forall p :: OnPolynomial(p, share) ==> OnPolynomial(Refreshed(p, randoms, i), updated)
    {
      ghost var before := updated;
      updated := AddContribution(updated, contributions[i][share.x]);
      forall p | OnPolynomial(p, share) ensures OnPolynomial(Refreshed(p, randoms, i + 1), updated) {
        ContributionMoves(p, randoms, i, before, contributions[i][share.x]);
      }
    }
  }

  datatype Refresh = Refresh(shares: seq<Share>, recoveredSecret: nat)

  // A round in which every guardian contributes: whatever polynomial of at most threshold coefficients the
  // shares were on, the new shares are on another with the same constant term, and, for distinct points, the
  // recovered secret is that constant term.
  method ProactiveRefresh(shares: seq<Share>, threshold: int, randoms: seq<seq<nat>>) returns (r: Result<Refresh>)
    requires IsPrime(PRIME) && |randoms| == |shares|
    requires threshold >= 1 ==> forall i :: 0 <= i < |randoms| ==> |randoms[i]| == threshold - 1
    ensures r.Error? <==> |shares| < threshold || (threshold < 1 && shares != [])
    ensures r.Ok? ==> Xs(r.value.shares) == Xs(shares)
    ensures r.Ok? && shares != [] ==> forall p :: IsSharing(p, shares, threshold) ==>
              var g := Refreshed(p, randoms, |randoms|);
              && IsSharing(g, r.value.shares, threshold) && g[0] == p[0]
              && (Distinct(Xs(shares), PRIME) ==> r.value.recoveredSecret == Mod(p[0]))
  {
    hide Eval, Cong, OnPolynomial, Xs, Mod;
    var points := Xs(shares);
    var allContributions: seq<map<int, nat>> := [];
    for i := 0 to |shares|
      invariant |allContributions| == i && (i > 0 ==> threshold >= 1)
      invariant forall m, j :: 0 <= m < i && 0 <= j < |shares| ==>
                  shares[j].x in allContributions[m]
                  && Cong(allContributions[m][shares[j].x], Eval([0] + randoms[m], shares[j].x), PRIME)
    {
      var c := GenerateZeroShares(threshold, points, randoms[i]);
      if c.Error? {
        return Error;
      }
      forall j | 0 <= j < |shares| ensures points[j] in points {}
      allContributions := allContributions + [c.value];
    }
    var refreshed: seq<Share> := [];
    for j := 0 to |shares|
      invariant |refreshed| == j
      invariant forall k :: 0 <= k < j ==> refreshed[k].x == shares[k].x
      invariant forall k, p :: 0 <= k < j && OnPolynomial(p, shares[k])
                  ==> OnPolynomial(Refreshed(p, randoms, |randoms|), refreshed[k])
    {
      var updated := RefreshShare(shares[j], allContributions, randoms);
      refreshed := refreshed + [updated];
    }
    var recovered := CombineShares(refreshed, threshold);
    if recovered.Error? {
      return Error;
    }
    assert Xs(refreshed) == Xs(shares);
    forall p | IsSharing(p, shares, threshold) && shares != []
      ensures var g := Refreshed(p, randoms, |randoms|);
              && IsSharing(g, refreshed, threshold) && g[0] == p[0]
              && (Distinct(Xs(shares), PRIME) ==> recovered.value == Mod(p[0]))
    {
      RefreshedShape(p, randoms, |randoms|, threshold);
      UsedSharing(Refreshed(p, randoms, |randoms|), refreshed, threshold);
    }
    return Ok(Refresh(refreshed, recovered.value));
  }

  lemma UsedSharing(p: seq<int>, shares: seq<Share>, threshold: int)
    requires IsSharing(p, shares, threshold) && |shares| >= threshold
    ensures IsSharing(p, Used(shares, threshold), threshold)
    ensures Distinct(Xs(shares), PRIME) ==> Distinct(Xs(Used(shares, threshold)), PRIME)
  {
    hide Eval, Cong, Xs;
    var used := Used(shares, threshold);
    assert forall i :: 0 <= i < |used| ==> used[i] == shares[i];
    if Distinct(Xs(shares), PRIME) {
      forall i, j | 0 <= i < j < |used| ensures !Cong(Xs(used)[i], Xs(used)[j], PRIME) {
        assert Xs(used)[i] == Xs(shares)[i] && Xs(used)[j] == Xs(shares)[j];
      }
    }
  }

  // ----- the law -----

  // Shares picks[0], picks[1], ... (numbered from 1) of some shares.
  function Picked(shares: seq<Share>, picks: seq<nat>): (s: seq<Share>)
    requires forall i :: 0 <= i < |picks| ==> 1 <= picks[i] <= |shares|
    ensures |s| == |picks| && forall i :: 0 <= i < |picks| ==> s[i] == shares[picks[i] - 1]
  {
    seq(|picks|, i requires 0 <= i < |picks| => shares[picks[i] - 1])
  }

  // Split, any number of refresh rounds, combine: any threshold or more distinct shares, in any order, give the
  // secret back modulo the prime.
  method SplitRefreshCombine(secret: int, threshold: int, numShares: int, random: seq<nat>,
    rounds: seq<seq<seq<nat>>>, picks: seq<nat>) returns (r: Result<nat>)
    requires IsPrime(PRIME) && 1 <= threshold <= numShares < PRIME && |random| == threshold - 1
    requires forall k :: 0 <= k < |rounds| ==>
               (|rounds[k]| == numShares && forall i :: 0 <= i < numShares ==> |rounds[k][i]| == threshold - 1)
    requires |picks| >= threshold && (forall i :: 0 <= i < |picks| ==> 1 <= picks[i] <= numShares)
    requires forall i, j :: 0 <= i < j < |picks| ==> picks[i] != picks[j]
    ensures r == Ok(Mod(secret))
  {
    hide Eval, Cong, OnPolynomial, Xs;
    var split := SplitSecret(secret, threshold, numShares, random);
    var shares := split.value;
    ghost var p: seq<int> := [Mod(secret)] + random;
    NumberedDistinct(shares, PRIME);
    for k := 0 to |rounds|
      invariant |shares| == numShares && IsSharing(p, shares, threshold) && p[0] == Mod(secret)
      invariant forall j :: 0 <= j < numShares ==> shares[j].x == j + 1
    {
      var round := ProactiveRefresh(shares, threshold, rounds[k]);
      assert forall j :: 0 <= j < numShares ==> round.value.shares[j].x == Xs(round.value.shares)[j] == Xs(shares)[j];
      p := Refreshed(p, rounds[k], numShares);
      shares := round.value.shares;
    }
    var picked := Picked(shares, picks);
    PickedDistinct(picked, picks, numShares);
    assert IsSharing(p, picked, threshold);
    UsedSharing(p, picked, threshold);
    ModTwice(secret);
    r := CombineShares(picked, threshold);
  }

  lemma NumberedDistinct(shares: seq<Share>, q: nat)
    requires |shares| < q && forall j :: 0 <= j < |shares| ==> shares[j].x == j + 1
    ensures Distinct(Xs(shares), q)
  {
    forall i, j | 0 <= i < j < |shares| ensures !Cong(Xs(shares)[i], Xs(shares)[j], q) {
      SmallDiffer(i + 1, j + 1, q);
    }
  }

  lemma SmallDiffer(a: nat, b: nat, q: nat)
    requires a < q && b < q && a != b
    ensures !Cong(a, b, q)
  {
    RemainderUnique(a, q, 0, a);
    RemainderUnique(b, q, 0, b);
  }

  lemma PickedDistinct(picked: seq<Share>, picks: seq<nat>, n: nat)
    requires |picked| == |picks| && n < PRIME && forall i :: 0 <= i < |picks| ==> 1 <= picks[i] <= n
    requires forall i :: 0 <= i < |picks| ==> picked[i].x == picks[i]
    requires forall i, j :: 0 <= i < j < |picks| ==> picks[i] != picks[j]
    ensures Distinct(Xs(picked), PRIME)
  {
    forall i, j | 0 <= i < j < |picked| ensures !Cong(Xs(picked)[i], Xs(picked)[j], PRIME) {
      SmallDiffer(picks[i], picks[j], PRIME);
    }
  }
}

/** Reconstruction of a secret from share texts (secrets.service.ts), and the round trip. */
module Reconstruct {
  import opened Numbers
  import opened Polynomials
  import opened Radix
  import opened Text
  import opened Vss

  datatype Point = Point(x: nat, y: nat)

  // Legacy: the first share has no VSS body, and the GF(256) path is taken.
  datatype Reconstruction = Secret(hex: string) | Failed | Legacy

  // parseInt(s, 16) of the two length characters; 0 stands for NaN, which pads nothing.
  function ParseLength(s: string): (n: nat)
    ensures |s| <= 2 ==> n <= 255
  {
    if s == "" || CharDigit(s[0]) >= 16 then 0
    else if |s| == 1 || CharDigit(s[1]) >= 16 then CharDigit(s[0])
    else CharDigit(s[0]) * 16 + CharDigit(s[1])
  }

  predicate IsVssShare(s: string) {
    var parts := SplitOnDash(s);
    |parts| >= 2 && IsVssBody(parts[1])
  }

  // The text after the prefix that names the kind and the length.
  function HexPart(body: string): string {
    if IsVssBody(body) then Slice(body, 5) else body
  }

  function ReadPoint(s: string): Option<Point> {
    var parts := SplitOnDash(s);
    if |parts| != 2 then None else
      match (BigIntDecimal(parts[0]), Parse(HexPart(parts[1]), 16))
      case (Some(x), Some(y)) => Some(Point(x, y))
      case _ => None
  }

  // The points of the first n shares, if all can be read.
  function ReadFirst(shares: seq<string>, n: nat): (ps: Option<seq<Point>>)
    requires n <= |shares|
    ensures ps.Some? ==> |ps.value| == n
    ensures ps.Some? ==> forall i :: 0 <= i < n ==> ReadPoint(shares[i]) == Some(ps.value[i])
    ensures ps.None? ==> exists i :: 0 <= i < n && ReadPoint(shares[i]).None?
  {
    hide ReadPoint;
    if n == 0 then Some([]) else
      match ReadFirst(shares, n - 1)
      case Some(ps) =>
        (match ReadPoint(shares[n - 1])
         case Some(p) => Some(ps + [p])
         case None => None)
      case None => None
  }

  function ReadPoints(shares: seq<string>): (ps: Option<seq<Point>>)
    ensures ps.Some? ==> |ps.value| == |shares|
    ensures ps.Some? ==> forall i :: 0 <= i < |shares| ==> ReadPoint(shares[i]) == Some(ps.value[i])
    ensures ps.None? ==> exists i :: 0 <= i < |shares| && ReadPoint(shares[i]).None?
  {
    ReadFirst(shares, |shares|)
  }

  // The length announced by the last VSS share among the first n, 64 if none.
  function LengthOfFirst(shares: seq<string>, n: nat): (len: nat)
    requires n <= |shares|
    ensures len <= 255
  {
    if n == 0 then 64 else
      var parts := SplitOnDash(shares[n - 1]);
      if |parts| == 2 && IsVssBody(parts[1]) then ParseLength(Prefix(Slice(parts[1], 3), 2))
      else LengthOfFirst(shares, n - 1)
  }

  function OriginalLength(shares: seq<string>): (n: nat)
    ensures n <= 255
  {
    LengthOfFirst(shares, |shares|)
  }

  function Prefix(s: string, n: nat): (p: string)
    ensures |p| <= n
  {
    if n <= |s| then s[..n] else s
  }

  function Xs(ps: seq<Point>): (xs: seq<int>)
    ensures |xs| == |ps| && forall i :: 0 <= i < |ps| ==> xs[i] == ps[i].x
  {
    seq(|ps|, i requires 0 <= i < |ps| => ps[i].x)
  }

  function Ys(ps: seq<Point>): (ys: seq<int>)
    ensures |ys| == |ps| && forall i :: 0 <= i < |ps| ==> ys[i] == ps[i].y
  {
    seq(|ps|, i requires 0 <= i < |ps| => ps[i].y)
  }

  // p passes through every point modulo q.
  ghost predicate Fits(p: seq<int>, ps: seq<Point>, q: int)
    requires q > 0
  {
    1 <= |p| <= |ps| && forall i :: 0 <= i < |ps| ==> Cong(ps[i].y, Eval(p, ps[i].x), q)
  }

  // The remainders taken on the way keep signs, so a value is only known to be above -q; points below q
  // keep every difference plus q, and so every value, non-negative.
  predicate Ranged(ps: seq<Point>, v: int, q: int) {
    -q < v < q && ((forall i :: 0 <= i < |ps| ==> ps[i].x < q) ==> v >= 0)
  }

  // s is congruent to the constant term of every polynomial through the points, with at most as many
  // coefficients as there are points.
  ghost predicate IsIntercept(ps: seq<Point>, s: int, q: int)
    requires q > 0
  {
    Ranged(ps, s, q) && forall p :: Fits(p, ps, q) ==> Cong(s, p[0], q)
  }

  // s.toString(16)
  function PrintHex(s: int): string {
    if s < 0 then "-" + Print(-s, 16) else Print(s, 16)
  }

  ghost predicate IsReconstruction(shares: seq<string>, r: Reconstruction) {
    if shares == [] then r == Failed
    else if !IsVssShare(shares[0]) then r == Legacy
    else if ReadPoints(shares).None? then r == Failed
    else
      var ps := ReadPoints(shares).value;
      if !Distinct(Xs(ps), VSS_Q) then r == Failed
      else r.Secret? && exists s: int :: IsIntercept(ps, s, VSS_Q) && r.hex == PadStart(PrintHex(s), OriginalLength(shares))
  }

  /** reconstructSecret, on VSS shares. */
  method ReconstructSecret(shareStrings: seq<string>) returns (r: Reconstruction)
    requires IsPrime(VSS_Q)
    ensures IsReconstruction(shareStrings, r)
  {
    if |shareStrings| == 0 { return Failed; }
    if !IsVssShare(shareStrings[0]) { return Legacy; }
    var parsed, originalLen := ParseShares(shareStrings);
    if parsed.None? { return Failed; }
    var secret := InterpolateAtZero(parsed.value);
    hide *;
    if secret.None? {
      NoReconstruction(shareStrings);
      return Failed;
    }
    IsReconstructed(shareStrings, parsed.value, secret.value);
    return Secret(PadStart(PrintHex(secret.value), originalLen));
  }

  lemma NoReconstruction(shares: seq<string>)
    requires shares != [] && IsVssShare(shares[0]) && ReadPoints(shares).Some?
    requires !Distinct(Xs(ReadPoints(shares).value), VSS_Q)
    ensures IsReconstruction(shares, Failed)
  {
    hide ReadPoints, IsVssShare, Xs, Distinct;
  }

  lemma IsReconstructed(shares: seq<string>, ps: seq<Point>, s: int)
    requires shares != [] && IsVssShare(shares[0]) && ReadPoints(shares) == Some(ps)
    requires Distinct(Xs(ps), VSS_Q) && IsIntercept(ps, s, VSS_Q)
    ensures IsReconstruction(shares, Secret(PadStart(PrintHex(s), OriginalLength(shares))))
  {
    hide ReadPoints, IsVssShare, Xs, Distinct, IsIntercept, PadStart, PrintHex, OriginalLength;
  }

  /** The loop that reads the shares; a malformed one throws. */
  method ParseShares(shareStrings: seq<string>) returns (parsed: Option<seq<Point>>, originalLen: nat)
    ensures parsed == ReadPoints(shareStrings)
    ensures parsed.Some? ==> originalLen == OriginalLength(shareStrings)
  {
    originalLen := 64;
    var points: seq<Point> := [];
    for i := 0 to |shareStrings|
      invariant ReadFirst(shareStrings, i) == Some(points)
      invariant originalLen == LengthOfFirst(shareStrings, i)
    {
      var share := shareStrings[i];
      var parts := SplitOnDash(share);
      if |parts| != 2 {
        NoneStays(shareStrings, i + 1);
        return None, 0;
      }
      var hex := parts[1];
      if IsVssBody(hex) {
        originalLen := ParseLength(Prefix(Slice(hex, 3), 2));
        hex := Slice(hex, 5);
      }
      var x, y := BigIntDecimal(parts[0]), Parse(hex, 16);
      if x.None? || y.None? {
        NoneStays(shareStrings, i + 1);
        return None, 0;
      }
      points := points + [Point(x.value, y.value)];
    }
    return Some(points), originalLen;
  }

  lemma {:induction false} NoneStays(shares: seq<string>, n: nat)
    requires n <= |shares| && ReadFirst(shares, n).None?
    ensures ReadPoints(shares).None?
    decreases |shares| - n
  {
    hide ReadPoint;
    if n < |shares| {
      NoneStays(shares, n + 1);
    }
  }

  /** The two nested loops of the reconstruction; a zero distance makes the inverse throw. */
  method InterpolateAtZero(ps: seq<Point>) returns (s: Option<int>)
    requires IsPrime(VSS_Q) && ps != []
    ensures s.Some? <==> Distinct(Xs(ps), VSS_Q)
    ensures s.Some? ==> IsIntercept(ps, s.value, VSS_Q)
  {
    var secret: int := 0;
    ghost var ws: seq<int> := [];
    NoTerms(ps);
    hide *;
    for i := 0 to |ps|
      invariant |ws| == i && WeightsSoFar(ps, ws)
      invariant Ranged(ps, secret, VSS_Q) && Agree(secret, WeightedSum(Ys(ps), ws, i), VSS_Q)
    {
      var weight := LagrangeWeight(ps, i);
      if weight.None? {
        TwoAlike(ps, i);
        return None;
      }
      secret := AddShare(ps, i, secret, weight.value, ws);
      ws := ws + [weight.value];
    }
    AllWeights(ps, ws);
    InterceptFromWeights(ps, ws, secret);
    return Some(secret);
  }

  // Weights of the first points, each at a distance from all others.
  ghost predicate WeightsSoFar(ps: seq<Point>, ws: seq<int>)
    requires |ws| <= |ps|
  {
    forall m :: 0 <= m < |ws| ==>
      (IsWeight(Xs(ps), m, ws[m], VSS_Q)
       && Apart(ps, m))
  }

  // Point i is at a distance from all others.
  ghost predicate Apart(ps: seq<Point>, i: nat)
    requires i < |ps|
  {
    forall m :: 0 <= m < |ps| && m != i ==> !Agree(ps[i].x, ps[m].x, VSS_Q)
  }

  lemma NoTerms(ps: seq<Point>)
    ensures Agree(0, WeightedSum(Ys(ps), [], 0), VSS_Q) && WeightsSoFar(ps, []) && Ranged(ps, 0, VSS_Q) && Ranged(ps, 1, VSS_Q)
  {}

  lemma TwoAlike(ps: seq<Point>, i: nat)
    requires i < |ps| && !Apart(ps, i)
    ensures !Distinct(Xs(ps), VSS_Q)
  {
    var m :| 0 <= m < |ps| && m != i && Agree(ps[i].x, ps[m].x, VSS_Q);
    var xs := Xs(ps);
    AgreeIsCong(xs[i], xs[m], VSS_Q);
    CongSymmetric(xs[i], xs[m], VSS_Q);
    hide Cong, Xs;
    if m < i { assert Cong(xs[m], xs[i], VSS_Q); } else { assert Cong(xs[i], xs[m], VSS_Q); }
  }

  lemma NextWeight(ps: seq<Point>, ws: seq<int>, w: int)
    requires |ws| < |ps| && WeightsSoFar(ps, ws) && IsWeight(Xs(ps), |ws|, w, VSS_Q)
    requires Apart(ps, |ws|)
    ensures WeightsSoFar(ps, ws + [w])
    ensures WeightedSum(Ys(ps), ws + [w], |ws| + 1) == WeightedSum(Ys(ps), ws, |ws|) + ps[|ws|].y * w
  {
    hide Cong, IsWeight, Xs;
    WeightedSumSnoc(Ys(ps), ws, w, |ws|);
  }

  lemma AllWeights(ps: seq<Point>, ws: seq<int>)
    requires |ws| == |ps| && WeightsSoFar(ps, ws)
    ensures LagrangeWeights(Xs(ps), ws, VSS_Q) && Distinct(Xs(ps), VSS_Q)
  {
    hide Cong, IsWeight, Xs;
    var xs := Xs(ps);
    forall i, j | 0 <= i < j < |xs| ensures !Cong(xs[i], xs[j], VSS_Q) {
      assert IsWeight(xs, i, ws[i], VSS_Q) && Apart(ps, i);
      AgreeIsCong(ps[i].x, ps[j].x, VSS_Q);
    }
  }

  // A remainder of a product or sum of ranged values is ranged.
  lemma RemRanged(ps: seq<Point>, v: int, q: int)
    requires q > 0 && ((forall i :: 0 <= i < |ps| ==> ps[i].x < q) ==> v >= 0)
    ensures Ranged(ps, Rem(v, q), q)
  {}

  lemma ProductRanged(ps: seq<Point>, y: nat, w: int, q: int)
    requires q > 0 && Ranged(ps, w, q)
    ensures Ranged(ps, Rem(y * w, q), q)
  {
    if w >= 0 { MulMonotone(0, y, w); }
    RemRanged(ps, y * w, q);
  }

  lemma ProductsRanged(ps: seq<Point>, v: int, w: int, q: int)
    requires q > 0 && Ranged(ps, v, q) && Ranged(ps, w, q)
    ensures Ranged(ps, Rem(v * w, q), q)
  {
    if v >= 0 && w >= 0 { MulMonotone(0, v, w); }
    RemRanged(ps, v * w, q);
  }

  // One more share's value times its weight.
  method AddShare(ps: seq<Point>, i: nat, secret: int, w: int, ghost ws: seq<int>) returns (r: int)
    requires |ws| == i < |ps| && WeightsSoFar(ps, ws) && IsWeight(Xs(ps), i, w, VSS_Q) && Apart(ps, i)
    requires Agree(secret, WeightedSum(Ys(ps), ws, i), VSS_Q) && Ranged(ps, secret, VSS_Q) && Ranged(ps, w, VSS_Q)
    ensures Ranged(ps, r, VSS_Q) && WeightsSoFar(ps, ws + [w])
    ensures Agree(r, WeightedSum(Ys(ps), ws + [w], i + 1), VSS_Q)
  {
    hide Agree, Cong, Xs, Ys, IsWeight, WeightedSum, WeightsSoFar, Apart, Rem;
    NextWeight(ps, ws, w);
    var term := Rem(ps[i].y * w, VSS_Q);
    r := Rem(secret + term, VSS_Q);
    AgreeIsCong(secret, WeightedSum(Ys(ps), ws, i), VSS_Q);
    SumStep(secret, WeightedSum(Ys(ps), ws, i), ps[i].y * w, term, r, VSS_Q);
    AgreeIsCong(r, WeightedSum(Ys(ps), ws + [w], i + 1), VSS_Q);
    ProductRanged(ps, ps[i].y, w, VSS_Q);
    RemRanged(ps, secret + term, VSS_Q);
  }

  lemma InterceptFromWeights(ps: seq<Point>, ws: seq<int>, secret: int)
    requires IsPrime(VSS_Q) && Distinct(Xs(ps), VSS_Q) && LagrangeWeights(Xs(ps), ws, VSS_Q)
    requires Ranged(ps, secret, VSS_Q) && Agree(secret, WeightedSum(Ys(ps), ws, |ps|), VSS_Q)
    ensures IsIntercept(ps, secret, VSS_Q)
  {
    AgreeIsCong(secret, WeightedSum(Ys(ps), ws, |ps|), VSS_Q);
    hide Xs, Ys;
    forall p | Fits(p, ps, VSS_Q)
      ensures Cong(secret, p[0], VSS_Q)
    {
      Interpolation(p, Xs(ps), Ys(ps), ws, VSS_Q);
    }
  }

  /** The inner loop: the product of xj / (xj - xi) over the other points. */
  method LagrangeWeight(ps: seq<Point>, i: nat) returns (r: Option<int>)
    requires IsPrime(VSS_Q) && i < |ps|
    ensures r.Some? <==> Apart(ps, i)
    ensures r.Some? ==> IsWeight(Xs(ps), i, r.value, VSS_Q) && Ranged(ps, r.value, VSS_Q)
  {
    hide Xs, Cong, IsWeight, IsPrime, Apart, ApartFrom, PartialWeight, Ranged;
    NoFactors(ps, i);
    var lagrange: int := 1;
    for j := 0 to |ps|
      invariant Ranged(ps, lagrange, VSS_Q) && PartialWeight(ps, i, j, lagrange) && ApartFrom(ps, i, j)
    {
      var next := NextFactor(ps, i, j, lagrange);
      if next.None? { return None; }
      lagrange := next.value;
    }
    WholeWeight(ps, i, lagrange);
    return Some(lagrange);
  }

  /** One turn of the inner loop; the inverse of a zero distance throws. */
  method NextFactor(ps: seq<Point>, i: nat, j: nat, lagrange: int) returns (r: Option<int>)
    requires IsPrime(VSS_Q) && i < |ps| && j < |ps| && Ranged(ps, lagrange, VSS_Q)
    requires PartialWeight(ps, i, j, lagrange) && ApartFrom(ps, i, j)
    ensures r.None? ==> !Apart(ps, i)
    ensures r.Some? ==> Ranged(ps, r.value, VSS_Q) && PartialWeight(ps, i, j + 1, r.value) && ApartFrom(ps, i, j + 1)
  {
    hide Xs, Cong, IsPrime, Apart, ApartFrom, PartialWeight, Ranged, Rem, Pow, Agree, Residue, Multiply;
    if i == j {
      SkipSelf(ps, i, lagrange);
      return Some(lagrange);
    }
    var denominator := Rem(ps[j].x - ps[i].x + VSS_Q, VSS_Q);
    var inverse := ModInverse(denominator, VSS_Q);
    DistanceRanged(ps, i, j);
    if inverse.None? {
      Collides(ps, i, j, denominator);
      return None;
    }
    var term := Rem(ps[j].x * inverse.value, VSS_Q);
    var next := Rem(lagrange * term, VSS_Q);
    ResidueIs(denominator, VSS_Q);
    MultiplyIs(ps[j].x, inverse.value);
    MultiplyIs(lagrange, term);
    AgreeIsCong(denominator, ps[j].x - ps[i].x, VSS_Q);
    AgreeIsCong(inverse.value, Pow(denominator, VSS_Q - 2), VSS_Q);
    AgreeIsCong(term, ps[j].x * inverse.value, VSS_Q);
    AgreeIsCong(next, lagrange * term, VSS_Q);
    OneFactor(ps, i, j, lagrange, denominator, inverse.value, term, next);
    InverseRanged(ps, denominator, inverse.value, VSS_Q);
    ProductRanged(ps, ps[j].x, inverse.value, VSS_Q);
    ProductsRanged(ps, lagrange, term, VSS_Q);
    return Some(next);
  }

  /** modInverse: a zero remainder throws. */
  method ModInverse(a: int, m: int) returns (r: Option<int>)
    requires m > 2
    ensures r.None? <==> a % m == 0
    ensures r.Some? ==> Cong(r.value, Pow(a, m - 2), m) && -m < r.value < m && (a >= 0 ==> r.value >= 0)
  {
    RemainderSign(a, m);
    if Rem(a, m) == 0 { return None; }
    var res := ModPow(a, m - 2, m);
    return Some(res);
  }

  lemma RemainderSign(a: int, m: int)
    requires m > 0
    ensures Rem(a, m) == 0 <==> a % m == 0
  {
    if Rem(a, m) == 0 { RemainderUnique(0, m, 0, 0); }
    if a % m == 0 && a < 0 { CongSub(0, 0, a, 0, m); RemainderUnique(0, m, 0, 0); }
  }

  lemma DistanceRanged(ps: seq<Point>, i: nat, j: nat)
    requires i < |ps| && j < |ps|
    ensures var d := Rem(ps[j].x - ps[i].x + VSS_Q, VSS_Q);
            Ranged(ps, d, VSS_Q) && Cong(d, ps[j].x - ps[i].x, VSS_Q)
  {
    RemRanged(ps, ps[j].x - ps[i].x + VSS_Q, VSS_Q);
    AddMultiple(ps[j].x - ps[i].x, 1, VSS_Q);
  }

  lemma InverseRanged(ps: seq<Point>, d: int, inverse: int, q: int)
    requires Ranged(ps, d, q) && -q < inverse < q && (d >= 0 ==> inverse >= 0)
    ensures Ranged(ps, inverse, q)
  {}

  // The weight accounts for the first j points.
  ghost predicate PartialWeight(ps: seq<Point>, i: nat, j: nat, w: int)
    requires i < |ps| && j <= |ps|
  {
    var xs := Xs(ps);
    Solves(w, ProductSkip(xs, i, j, xs[i]), ProductSkip(xs, i, j, 0), VSS_Q)
  }

  ghost predicate ApartFrom(ps: seq<Point>, i: nat, j: nat)
    requires i < |ps| && j <= |ps|
  {
    forall m :: 0 <= m < j && m != i ==> !Agree(ps[i].x, ps[m].x, VSS_Q)
  }

  lemma NoFactors(ps: seq<Point>, i: nat)
    requires i < |ps|
    ensures PartialWeight(ps, i, 0, 1) && ApartFrom(ps, i, 0) && Ranged(ps, 1, VSS_Q)
  {
    SolvesIs(1, 1, 1, VSS_Q);
  }

  lemma Collides(ps: seq<Point>, i: nat, j: nat, d: int)
    requires i < |ps| && j < |ps| && i != j && d % VSS_Q == 0 && Cong(d, ps[j].x - ps[i].x, VSS_Q)
    ensures !Apart(ps, i)
  {
    CongZeroSub(ps[j].x, ps[i].x, VSS_Q);
    CongSymmetric(ps[j].x, ps[i].x, VSS_Q);
    AgreeIsCong(ps[i].x, ps[j].x, VSS_Q);
    assert Agree(ps[i].x, ps[j].x, VSS_Q);
  }

  lemma OneFactor(ps: seq<Point>, i: nat, j: nat, w: int, d: int, inverse: int, term: int, next: int)
    requires IsPrime(VSS_Q) && i < |ps| && j < |ps| && i != j
    requires Residue(d, VSS_Q) != 0 && Agree(d, ps[j].x - ps[i].x, VSS_Q) && Agree(inverse, Pow(d, VSS_Q - 2), VSS_Q)
    requires Agree(term, Multiply(ps[j].x, inverse), VSS_Q) && Agree(next, Multiply(w, term), VSS_Q)
    requires PartialWeight(ps, i, j, w) && ApartFrom(ps, i, j)
    ensures PartialWeight(ps, i, j + 1, next) && ApartFrom(ps, i, j + 1)
  {
    ResidueIs(d, VSS_Q);
    MultiplyIs(ps[j].x, inverse);
    MultiplyIs(w, term);
    hide Agree, Residue, Multiply;
    AgreeIsCong(d, ps[j].x - ps[i].x, VSS_Q);
    AgreeIsCong(inverse, Pow(d, VSS_Q - 2), VSS_Q);
    AgreeIsCong(term, ps[j].x * inverse, VSS_Q);
    AgreeIsCong(next, w * term, VSS_Q);
    var xs := Xs(ps);
    CongZeroSub(ps[j].x, ps[i].x, VSS_Q);
    CongSymmetric(ps[j].x, ps[i].x, VSS_Q);
    AgreeIsCong(ps[i].x, ps[j].x, VSS_Q);
    hide Cong, Xs, IsPrime, Pow, Solves;
    var a, b := ProductSkip(xs, i, j, xs[i]), ProductSkip(xs, i, j, 0);
    SolvesIs(w, a, b, VSS_Q);
    WeightStep(w, a, b, ps[j].x, ps[i].x, d, inverse, term, next, VSS_Q);
    SolvesIs(next, a * (ps[j].x - ps[i].x), b * (ps[j].x - 0), VSS_Q);
  }

  lemma SkipSelf(ps: seq<Point>, i: nat, w: int)
    requires i < |ps| && PartialWeight(ps, i, i, w) && ApartFrom(ps, i, i)
    ensures PartialWeight(ps, i, i + 1, w) && ApartFrom(ps, i, i + 1)
  {
    hide Cong, Xs, Solves;
  }

  lemma WholeWeight(ps: seq<Point>, i: nat, w: int)
    requires i < |ps| && PartialWeight(ps, i, |ps|, w) && ApartFrom(ps, i, |ps|)
    ensures IsWeight(Xs(ps), i, w, VSS_Q) && Apart(ps, i)
  {
    hide Cong, Xs, Solves;
  }

  lemma SumStep(secret: int, sum: int, product: int, term: int, next: int, q: int)
    requires q > 0 && Cong(secret, sum, q) && Cong(term, product, q) && Cong(next, secret + term, q)
    ensures Cong(next, sum + product, q)
  {
    CongAdd(secret, sum, term, product, q);
  }

  lemma InverseOfDistance(d: int, x: int, inverse: int, q: int)
    requires IsPrime(q) && d % q != 0 && Cong(d, x, q) && Cong(inverse, Pow(d, q - 2), q)
    ensures Cong(x * inverse, 1, q)
  {
    FermatInverse(d, q);
    CongSymmetric(d, x, q);
    CongMul(x, d, inverse, Pow(d, q - 2), q);
  }

  // Multiplying a weight so far by xj / (xj - xi) accounts for one more point; d, inverse, term and next
  // are the remainders taken on the way.
  lemma WeightStep(lag: int, a: int, b: int, xj: int, xi: int, d: int, inverse: int, term: int, next: int, q: int)
    requires IsPrime(q) && d % q != 0 && Cong(lag * a, b, q)
    requires Cong(d, xj - xi, q) && Cong(inverse, Pow(d, q - 2), q)
    requires Cong(term, xj * inverse, q) && Cong(next, lag * term, q)
    ensures Cong(next * (a * (xj - xi)), b * (xj - 0), q)
  {
    var x, t := xj - xi, xj * inverse;
    InverseOfDistance(d, x, inverse, q);
    CongMul(xj, xj, x * inverse, 1, q);
    TermTimesDistance(xj, inverse, x);
    CongMul(lag * a, b, t * x, xj, q);
    MulShuffle(lag, t, a, x);
    CongMul(lag, lag, term, t, q);
    CongMul(next, lag * t, a * x, a * x, q);
  }

  lemma TermTimesDistance(xj: int, inv: int, d: int)
    ensures (xj * inv) * d == xj * (d * inv)
  {
    assert (xj * inv) * d == xj * (inv * d);
  }

  // ----- the round trip -----

  // Shares picks[0], picks[1], ... (numbered from 1) of a split.
  function Picked(coeffs: seq<nat>, lenHex: string, picks: seq<nat>): (shares: seq<string>)
    ensures |shares| == |picks|
    ensures forall i :: 0 <= i < |picks| ==> shares[i] == ShareText(picks[i], lenHex, ShareValue(coeffs, picks[i]))
  {
    seq(|picks|, i requires 0 <= i < |picks| => ShareText(picks[i], lenHex, ShareValue(coeffs, picks[i])))
  }

  // Any selection, in any order, of pairwise different shares out of n.
  ghost predicate IsSelection(picks: seq<nat>, n: nat) {
    && (forall i :: 0 <= i < |picks| ==> 1 <= picks[i] <= n)
    && forall i, j :: 0 <= i < j < |picks| ==> picks[i] != picks[j]
  }

  lemma SmallNumbersDistinct(picks: seq<nat>, n: nat, q: nat)
    requires IsSelection(picks, n) && n < q
    ensures Distinct(picks, q)
  {
    forall i, j | 0 <= i < j < |picks|
      ensures !Cong(picks[i], picks[j], q)
    {
      RemainderUnique(picks[i], q, 0, picks[i]);
      RemainderUnique(picks[j], q, 0, picks[j]);
    }
  }

  // A share text with a two-character length reads back as its point.
  lemma PickedReads(coeffs: seq<nat>, lenHex: string, picks: seq<nat>, i: nat)
    requires |lenHex| == 2 && AreChars(lenHex, 16) && i < |picks|
    ensures var s := Picked(coeffs, lenHex, picks)[i];
            ReadPoint(s) == Some(Point(picks[i], ShareValue(coeffs, picks[i]))) && IsVssShare(s)
  {
    ReadShareText(picks[i], lenHex, ShareValue(coeffs, picks[i]));
    ReadShareBody(lenHex, ShareValue(coeffs, picks[i]));
  }

  lemma PickedLength(coeffs: seq<nat>, lenHex: string, picks: seq<nat>)
    requires |lenHex| == 2 && AreChars(lenHex, 16) && picks != []
    ensures OriginalLength(Picked(coeffs, lenHex, picks)) == ParseLength(lenHex)
  {
    var n := |picks| - 1;
    ReadShareText(picks[n], lenHex, ShareValue(coeffs, picks[n]));
    ReadShareBody(lenHex, ShareValue(coeffs, picks[n]));
  }

  lemma LengthReadsBack(n: nat)
    requires n <= 255
    ensures |LengthHex(n)| == 2 && AreChars(LengthHex(n), 16) && ParseLength(LengthHex(n)) == n
  {
    ParsePrint(n, 2, 16);
    if n < 16 {
      assert Digits(n, 16) == [n];
    } else {
      assert Digits(n, 16) == Digits(n / 16, 16) + [n % 16];
      assert Digits(n / 16, 16) == [n / 16];
    }
    PrintChars(n, 16);
  }

  /** Interpolating any k or more different shares of a split gives the secret's number. */
  lemma SelectionIntercept(coeffs: seq<nat>, picks: seq<nat>, ps: seq<Point>, s: int, n: nat, q: nat)
    requires 1 <= |coeffs| <= |picks| == |ps|
    requires IsSelection(picks, n) && n < q && coeffs[0] < q
    requires forall i :: 0 <= i < |ps| ==> ps[i].x == picks[i] && Cong(ps[i].y, Eval(coeffs, picks[i]), q)
    requires IsIntercept(ps, s, q)
    ensures s == coeffs[0] && Distinct(Xs(ps), q)
  {
    SmallNumbersDistinct(picks, n, q);
    assert Xs(ps) == picks;
    assert Fits(coeffs, ps, q);
    RemainderUnique(s, q, 0, s);
    RemainderUnique(coeffs[0], q, 0, coeffs[0]);
  }

  // What reconstructing a selection of shares with a two-character length returns.
  lemma ReconstructSelection(coeffs: seq<nat>, lenHex: string, picks: seq<nat>, n: nat, r: Reconstruction)
    requires 1 <= |coeffs| <= |picks| && coeffs[0] < VSS_Q
    requires |lenHex| == 2 && AreChars(lenHex, 16)
    requires IsSelection(picks, n) && n < VSS_Q
    requires IsReconstruction(Picked(coeffs, lenHex, picks), r)
    ensures r == Secret(PadStart(Print(coeffs[0], 16), ParseLength(lenHex)))
  {
    hide Eval, Cong, Print, PadStart, ParseLength, ReadPoint, ShareText, ReadPoints, OriginalLength, AreChars;
    var shares := Picked(coeffs, lenHex, picks);
    forall i | 0 <= i < |picks|
      ensures ReadPoint(shares[i]) == Some(Point(picks[i], ShareValue(coeffs, picks[i]))) && IsVssShare(shares[i])
    {
      PickedReads(coeffs, lenHex, picks, i);
    }
    PickedLength(coeffs, lenHex, picks);
    var ps := ReadPoints(shares).value;
    forall i | 0 <= i < |ps|
      ensures ps[i].x == picks[i] && Cong(ps[i].y, Eval(coeffs, picks[i]), VSS_Q)
    {
      CongMod(Eval(coeffs, picks[i]), VSS_Q);
    }
    SmallNumbersDistinct(picks, n, VSS_Q);
    assert Xs(ps) == picks;
    var s: int :| IsIntercept(ps, s, VSS_Q) && r.hex == PadStart(PrintHex(s), OriginalLength(shares));
    SelectionIntercept(coeffs, picks, ps, s, n, VSS_Q);
  }

  // Whatever is reconstructed is at most 255 characters long.
  lemma ReconstructionShort(shares: seq<string>, r: Reconstruction)
    requires IsReconstruction(shares, r) && r.Secret?
    ensures |r.hex| <= 255
  {
    var s: int :| IsIntercept(ReadPoints(shares).value, s, VSS_Q) && r.hex == PadStart(PrintHex(s), OriginalLength(shares));
    GroupOrderSize();
    DigitCount(if s < 0 then -s else s, 65, 16);
  }

  lemma GroupOrderSize()
    ensures VSS_Q < Pow(16, 65)
  {
    HexPowers();
  }

  // The shares numbered picks[0], picks[1], ... among shares 1 to |shares|.
  function Selected(shares: seq<string>, picks: seq<nat>): (selected: seq<string>)
    requires forall i :: 0 <= i < |picks| ==> 1 <= picks[i] <= |shares|
    ensures |selected| == |picks|
    ensures forall i :: 0 <= i < |picks| ==> selected[i] == shares[picks[i] - 1]
  {
    seq(|picks|, i requires 0 <= i < |picks| => shares[picks[i] - 1])
  }

  /** The round trip of splitSecretVSS and reconstructSecret. Any k or more different shares,
      in any order, give back the hexadecimal secret, leading zeros included, exactly when it
      is in lower case and its length fits the two length characters of a share. */
  lemma RoundTrip(clean: string, coeffs: seq<nat>, picks: seq<nat>, n: nat, r: Reconstruction)
    requires Parse(clean, 16).Some? && Parse(clean, 16).value < VSS_Q
    requires 1 <= |coeffs| <= |picks| && coeffs[0] == Parse(clean, 16).value
    requires IsSelection(picks, n) && n < VSS_Q
    requires IsReconstruction(Selected(ShareTexts(coeffs, LengthHex(|clean|), n), picks), r)
    ensures r == Secret(clean) <==> IsLower(clean) && |clean| <= 255
  {
    assert Selected(ShareTexts(coeffs, LengthHex(|clean|), n), picks) == Picked(coeffs, LengthHex(|clean|), picks);
    if |clean| <= 255 {
      LengthReadsBack(|clean|);
      ReconstructSelection(coeffs, LengthHex(|clean|), picks, n, r);
      PrintParse(clean);
    } else if r.Secret? {
      ReconstructionShort(Picked(coeffs, LengthHex(|clean|), picks), r);
    }
  }
}

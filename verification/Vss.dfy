/** Feldman verifiable secret sharing over the safe-prime group of secrets.service.ts. */
module Vss {
  import opened Numbers
  import opened Polynomials
  import opened Text

  const VSS_Q: nat := 115792089237316195423570985008687907853269984665640564039457584007913129658411
  const VSS_P: nat := 231584178474632390847141970017375815706539969331281128078915168015826259316823
  const VSS_G: nat := 4

  // ----- the subgroup generated by 4 modulo a safe prime -----

  ghost predicate SafePrime(q: int, p: int) {
    IsPrime(q) && IsPrime(p) && p == 2 * q + 1
  }

  // 4 has order exactly q modulo p = 2q + 1.
  lemma GeneratorOrder(q: int, p: int)
    requires SafePrime(q, p)
    ensures Cong(Pow(4, q), 1, p) && !Cong(4, 1, p) && 4 % p != 0
  {
    RemainderUnique(2, p, 0, 2);
    RemainderUnique(4, p, 0, 4);
    RemainderUnique(1, p, 0, 1);
    Fermat(2, p);
    PowMul(2, 2, q);
    assert Pow(2, 2) == 2 * Pow(2, 1) == 2 * (2 * Pow(2, 0)) == 4;
  }

  // Powers of the generator agree exactly when the exponents agree modulo q.
  lemma ExponentsAgree(u: nat, v: nat, q: int, p: int)
    requires SafePrime(q, p)
    ensures Cong(Pow(4, u), Pow(4, v), p) <==> Cong(u, v, q)
  {
    GeneratorOrder(q, p);
    if Cong(u, v, q) {
      ExponentMod(4, u, q, p);
      ExponentMod(4, v, q, p);
    }
    if Cong(Pow(4, u), Pow(4, v), p) {
      if u >= v { ExponentsCancel(u, v, q, p); } else { ExponentsCancel(v, u, q, p); }
    }
  }

  lemma ExponentsCancel(u: nat, v: nat, q: int, p: int)
    requires SafePrime(q, p) && u >= v && Cong(Pow(4, u), Pow(4, v), p)
    ensures Cong(u, v, q)
  {
    GeneratorOrder(q, p);
    PowAdd(4, v, u - v);
    if Pow(4, v) % p == 0 { EuclidPow(4, v, p); }
    assert Pow(4, v) * 1 == Pow(4, v);
    CancelFactor(Pow(4, v), Pow(4, u - v), 1, p);
    PrimeOrder(4, u - v, q, p);
    CongZeroSub(u, v, q);
  }

  // ----- commitments -----

  // The product of cs[i] ^ (x^i mod q) over i < j.
  function CommitmentProduct(cs: seq<nat>, x: nat, j: nat, q: int): int
    requires j <= |cs| && q > 0
  {
    if j == 0 then 1
    else CommitmentProduct(cs, x, j - 1, q) * Pow(cs[j - 1], Pow(x, j - 1) % q)
  }

  // The commitments are the powers 4^coeffs[i] modulo p.
  ghost predicate Commits(cs: seq<nat>, coeffs: seq<nat>, p: int)
    requires p > 0
  {
    |cs| == |coeffs| && forall i :: 0 <= i < |cs| ==> Cong(cs[i], Pow(4, coeffs[i]), p)
  }

  lemma {:induction false} EvalNonnegative(a: seq<nat>, x: nat)
    ensures Eval(a, x) >= 0
  {
    if a != [] {
      EvalNonnegative(a[1..], x);
      MulMonotone(0, x, Eval(a[1..], x));
    }
  }

  lemma CommitmentPower(c: nat, a: nat, x: nat, j: nat, q: int, p: int)
    requires SafePrime(q, p) && Cong(c, Pow(4, a), p)
    ensures 0 <= a * Pow(x, j)
    ensures Cong(Pow(c, Pow(x, j) % q), Pow(4, a * Pow(x, j)), p)
  {
    var e := Pow(x, j) % q;
    PowPositiveOrZero(x, j);
    MulMonotone(0, a, Pow(x, j));
    CongPow(c, Pow(4, a), e, p);
    PowMul(4, a, e);
    CongMod(Pow(x, j), q);
    CongMul(a, a, e, Pow(x, j), q);
    ExponentsAgree(a * e, a * Pow(x, j), q, p);
  }

  // The commitments evaluate the committed polynomial in the exponent.
  lemma {:induction false} CommitmentEvaluation(cs: seq<nat>, a: seq<nat>, x: nat, j: nat, q: int, p: int)
    requires SafePrime(q, p) && Commits(cs, a, p) && j <= |cs|
    ensures Eval(a[..j], x) >= 0
    ensures Cong(CommitmentProduct(cs, x, j, q), Pow(4, Eval(a[..j], x)), p)
  {
    EvalNonnegative(a[..j], x);
    if j == 0 {
      assert a[..0] == [];
    } else {
      var i := j - 1;
      CommitmentEvaluation(cs, a, x, i, q, p);
      CommitmentPower(cs[i], a[i], x, i, q, p);
      EvalPrefix(a, i, x);
      PowAdd(4, Eval(a[..i], x), a[i] * Pow(x, i));
      CongMul(CommitmentProduct(cs, x, i, q), Pow(4, Eval(a[..i], x)),
              Pow(cs[i], Pow(x, i) % q), Pow(4, a[i] * Pow(x, i)), p);
    }
  }

  // The verification equation of one share.
  predicate Verifies(x: nat, y: nat, cs: seq<nat>, q: int, p: int)
    requires q > 0 && p > 0
  {
    Cong(Pow(4, y), CommitmentProduct(cs, x, |cs|, q), p)
  }

  /** The verification equation is exact: it accepts the values of the committed polynomial
      and nothing else. */
  lemma VerifiesExactly(x: nat, y: nat, cs: seq<nat>, a: seq<nat>, q: int, p: int)
    requires SafePrime(q, p) && Commits(cs, a, p)
    ensures Verifies(x, y, cs, q, p) <==> Cong(y, Eval(a, x), q)
  {
    CommitmentEvaluation(cs, a, x, |cs|, q, p);
    assert a[..|cs|] == a;
    ExponentsAgree(y, Eval(a, x), q, p);
  }

  // ----- textual shares and commitments -----

  function Slice(s: string, i: nat): string {
    if i <= |s| then s[i..] else ""
  }

  predicate IsVssBody(body: string) {
    "vss" <= body
  }

  // BigInt(s) of a decimal string; the empty string is 0.
  function BigIntDecimal(s: string): Option<nat> {
    if s == "" then Some(0) else Parse(s, 10)
  }

  function ShareText(x: nat, lenHex: string, y: nat): string {
    Print(x, 10) + "-" + ("vss" + lenHex + PadStart(Print(y, 16), 64))
  }

  function CommitmentText(c: nat): string {
    PadStart(Print(c, 16), 66)
  }

  // The share (x, y) that verifyShare reads.
  function ReadVssShare(s: string): Option<(nat, nat)> {
    var parts := SplitOnDash(s);
    if |parts| != 2 || !IsVssBody(parts[1]) then None else
      match (BigIntDecimal(parts[0]), Parse(Slice(parts[1], 5), 16))
      case (Some(x), Some(y)) => Some((x, y))
      case _ => None
  }

  function ReadCommitments(texts: seq<string>): (cs: Option<seq<nat>>)
    ensures cs.Some? ==> |cs.value| == |texts|
    ensures cs.Some? ==> forall i :: 0 <= i < |texts| ==> Parse(texts[i], 16) == Some(cs.value[i])
    ensures cs.None? ==> exists i :: 0 <= i < |texts| && Parse(texts[i], 16).None?
  {
    if texts == [] then Some([]) else
      var n := |texts| - 1;
      match (ReadCommitments(texts[..n]), Parse(texts[n], 16))
      case (Some(cs), Some(c)) => Some(cs + [c])
      case _ => None
  }

  predicate ShareAccepted(share: string, commitments: seq<string>) {
    match (ReadVssShare(share), ReadCommitments(commitments))
    case (Some(point), Some(cs)) => Verifies(point.0, point.1, cs, VSS_Q, VSS_P)
    case _ => false
  }

  lemma DecimalNoDash(s: string, b: nat)
    requires b <= 16 && AreChars(s, b)
    ensures NoDash(s)
  {
    assert CharDigit('-') == 16;
  }

  // A printed number is read back; it has only decimal digits.
  lemma ReadDecimal(x: nat)
    ensures BigIntDecimal(Print(x, 10)) == Some(x) && AreChars(Print(x, 10), 10)
  {
    ParsePrint(x, 0, 10);
    assert PadStart(Print(x, 10), 0) == Print(x, 10);
  }

  // What share texts read back as, and the pieces the readers cut out of them.
  lemma ReadShareText(x: nat, lenHex: string, y: nat)
    requires AreChars(lenHex, 16) && |lenHex| >= 2
    ensures SplitOnDash(ShareText(x, lenHex, y)) == [Print(x, 10), "vss" + lenHex + PadStart(Print(y, 16), 64)]
    ensures BigIntDecimal(Print(x, 10)) == Some(x)
  {
    var hex := PadStart(Print(y, 16), 64);
    ReadDecimal(x);
    ParsePrint(y, 64, 16);
    hide Print, PadStart, SplitOnDash, BigIntDecimal, Parse;
    DecimalNoDash(Print(x, 10), 10);
    DecimalNoDash(lenHex, 16);
    DecimalNoDash(hex, 16);
    SplitPair(Print(x, 10), "vss" + lenHex + hex);
  }

  lemma ReadShareBody(lenHex: string, y: nat)
    requires |lenHex| == 2
    ensures var body := "vss" + lenHex + PadStart(Print(y, 16), 64);
            IsVssBody(body) && Slice(body, 3)[..2] == lenHex && Parse(Slice(body, 5), 16) == Some(y)
  {
    ParsePrint(y, 64, 16);
    var body := "vss" + lenHex + PadStart(Print(y, 16), 64);
    assert body[5..] == PadStart(Print(y, 16), 64);
  }

  // A share text for the point (x, y): an index, a dash, the kind, two characters of length and a value.
  ghost predicate Spells(share: string, x: nat, y: nat) {
    exists index, len, value :: SpelledBy(share, x, y, index, len, value)
  }

  ghost predicate SpelledBy(share: string, x: nat, y: nat, index: string, len: string, value: string) {
    && share == index + "-" + ("vss" + len + value) && |len| == 2 && NoDash(len)
    && BigIntDecimal(index) == Some(x) && Parse(value, 16) == Some(y)
  }

  lemma ParsedNoDash(s: string, b: nat)
    requires 2 <= b <= 16 && Parse(s, b).Some?
    ensures NoDash(s) && s != ""
  {
    DecimalNoDash(s, b);
  }

  lemma VssBodyParts(body: string)
    requires IsVssBody(body) && |body| >= 5
    ensures body == "vss" + body[3..5] + body[5..] && Slice(body, 5) == body[5..]
    ensures NoDash(body) ==> NoDash(body[3..5])
  {}

  // Exactly these texts are read, as these points.
  lemma ReadVssExactly(share: string, x: nat, y: nat)
    ensures ReadVssShare(share) == Some((x, y)) <==> Spells(share, x, y)
  {
    hide Parse, SplitOnDash;
    if ReadVssShare(share) == Some((x, y)) {
      SplitTwo(share);
      var parts := SplitOnDash(share);
      ParsedNoDash(Slice(parts[1], 5), 16);
      VssBodyParts(parts[1]);
      assert SpelledBy(share, x, y, parts[0], parts[1][3..5], parts[1][5..]);
    }
    if Spells(share, x, y) {
      var index, len, value :| SpelledBy(share, x, y, index, len, value);
      if index != "" { ParsedNoDash(index, 10); }
      ParsedNoDash(value, 16);
      SplitPair(index, "vss" + len + value);
      assert Slice("vss" + len + value, 5) == value;
    }
  }

  ghost predicate AreCommitments(texts: seq<string>, cs: seq<nat>) {
    |cs| == |texts| && forall i :: 0 <= i < |texts| ==> Parse(texts[i], 16) == Some(cs[i])
  }

  // A share is accepted exactly when it spells a point that satisfies the equation under the commitments the
  // texts spell.
  lemma AcceptedExactly(share: string, texts: seq<string>)
    ensures ShareAccepted(share, texts)
       <==> exists x: nat, y: nat, cs :: Spells(share, x, y) && AreCommitments(texts, cs) && Verifies(x, y, cs, VSS_Q, VSS_P)
  {
    hide Parse, ReadVssShare, Spells, Verifies;
    if ShareAccepted(share, texts) {
      var point, cs := ReadVssShare(share).value, ReadCommitments(texts).value;
      ReadVssExactly(share, point.0, point.1);
      assert AreCommitments(texts, cs);
    }
    if x: nat, y: nat, cs :| Spells(share, x, y) && AreCommitments(texts, cs) && Verifies(x, y, cs, VSS_Q, VSS_P) {
      ReadVssExactly(share, x, y);
      assert ReadCommitments(texts).value == cs;
    }
  }

  /** modPow of this service: every remainder keeps the sign of what is divided. */
  method ModPow(base: int, exp: nat, m: int) returns (res: int)
    requires m > 0
    ensures Cong(res, Pow(base, exp), m)
    ensures if exp == 0 then res == 1 else -m < res < m
    ensures base >= 0 ==> res >= 0
    ensures base >= 0 && m > 1 ==> res == Pow(base, exp) % m
  {
    res := 1;
    var b := Rem(base, m);
    var e := exp;
    CongPow(b, base, exp, m);
    while e > 0
      invariant 0 <= e <= exp && (base >= 0 ==> res >= 0 && b >= 0)
      invariant (-m < res < m) || (res == 1 && (e > 0 || exp == 0))
      invariant e == exp ==> res == 1
      invariant Cong(res * Pow(b, e), Pow(base, exp), m)
    {
      ghost var (res0, b0, e0) := (res, b, e);
      MulMonotone(0, if base >= 0 then res0 else 0, if base >= 0 then b0 else 0);
      MulMonotone(0, if base >= 0 then b0 else 0, if base >= 0 then b0 else 0);
      if e % 2 == 1 {
        res := Rem(res * b, m);
      }
      b := Rem(b * b, m);
      e := e / 2;
      SquareStep(res0, b0, e0, res, b, m);
    }
    assert Pow(b, 0) == 1 && res * 1 == res;
    if base >= 0 && m > 1 { RemainderUnique(res, m, 0, res); }
  }

  /** The loop shared by verifyShare and verifyZeroShareContribution: the product of the
      commitments raised to the powers of x. An unreadable commitment throws. */
  method EvaluateCommitments(x: nat, commitments: seq<string>) returns (r: Option<nat>)
    ensures r.Some? <==> ReadCommitments(commitments).Some?
    ensures r.Some? ==> r.value == CommitmentProduct(ReadCommitments(commitments).value, x, |commitments|, VSS_Q) % VSS_P
  {
    hide Parse;
    var rhs := 1;
    ghost var cs: seq<nat> := [];
    EmptyProduct(x);
    hide CommitmentProduct;
    for j := 0 to |commitments|
      invariant ReadCommitments(commitments[..j]) == Some(cs) && |cs| == j
      invariant rhs == CommitmentProduct(cs, x, j, VSS_Q) % VSS_P
    {
      assert commitments[..j + 1][..j] == commitments[..j];
      var c := Parse(commitments[j], 16);
      if c.None? {
        ReadCommitmentsFails(commitments, j);
        return None;
      }
      var xPower := ModPow(x, j, VSS_Q);
      var term := ModPow(c.value, xPower, VSS_P);
      ProductStep(cs, c.value, x, j);
      rhs := (rhs * term) % VSS_P;
      cs := cs + [c.value];
    }
    assert commitments[..|commitments|] == commitments;
    return Some(rhs);
  }

  lemma EmptyProduct(x: nat)
    ensures CommitmentProduct([], x, 0, VSS_Q) % VSS_P == 1
  {}

  // One more commitment in the product.
  lemma ProductStep(cs: seq<nat>, c: nat, x: nat, j: nat)
    requires j == |cs|
    ensures var term := Pow(c, Pow(x, j) % VSS_Q) % VSS_P;
            CommitmentProduct(cs + [c], x, j + 1, VSS_Q) % VSS_P == (CommitmentProduct(cs, x, j, VSS_Q) % VSS_P * term) % VSS_P
  {
    hide Pow;
    ProductPrefix(cs, c, x, j);
    ModMulBoth(CommitmentProduct(cs, x, j, VSS_Q), Pow(c, Pow(x, j) % VSS_Q), VSS_P);
  }

  /** verifyShare. Parse failures throw there and are caught as a rejection. */
  method VerifyShare(share: string, commitments: seq<string>) returns (ok: bool)
    ensures ok == ShareAccepted(share, commitments)
  {
    var parts := SplitOnDash(share);
    if |parts| != 2 || !IsVssBody(parts[1]) { return false; }
    var x, y := BigIntDecimal(parts[0]), Parse(Slice(parts[1], 5), 16);
    if x.None? || y.None? { return false; }
    var lhs := ModPow(VSS_G, y.value, VSS_P);
    var rhs := EvaluateCommitments(x.value, commitments);
    return rhs.Some? && lhs == rhs.value;
  }

  lemma ReadCommitmentsFails(texts: seq<string>, j: nat)
    requires j < |texts| && Parse(texts[j], 16).None?
    ensures ReadCommitments(texts).None?
  {}

  lemma {:induction false} ProductPrefix(cs: seq<nat>, c: nat, x: nat, j: nat)
    requires j <= |cs|
    ensures CommitmentProduct(cs + [c], x, j, VSS_Q) == CommitmentProduct(cs, x, j, VSS_Q)
  {
    if j != 0 { ProductPrefix(cs, c, x, j - 1); }
  }

  // ----- splitting -----

  // coeffs evaluated at x, reduced modulo Q: the y of share x.
  function ShareValue(coeffs: seq<nat>, x: nat): (y: nat)
    ensures y < VSS_Q
  {
    Eval(coeffs, x) % VSS_Q
  }

  function ShareTexts(coeffs: seq<nat>, lenHex: string, n: nat): (shares: seq<string>)
    ensures |shares| == n
    ensures forall i :: 0 <= i < n ==> shares[i] == ShareText(i + 1, lenHex, ShareValue(coeffs, i + 1))
  {
    hide ShareText, ShareValue;
    if n == 0 then [] else ShareTexts(coeffs, lenHex, n - 1) + [ShareText(n, lenHex, ShareValue(coeffs, n))]
  }

  // The commitment to a coefficient.
  function Committed(e: nat): nat {
    Pow(VSS_G, e) % VSS_P
  }

  function CommitmentTexts(coeffs: seq<nat>): (cs: seq<string>)
    ensures |cs| == |coeffs|
    ensures forall i :: 0 <= i < |cs| ==> cs[i] == CommitmentText(Committed(coeffs[i]))
  {
    seq(|coeffs|, i requires 0 <= i < |coeffs| => CommitmentText(Committed(coeffs[i])))
  }

  // The published commitments read back as commitments to the coefficients.
  lemma CommitmentTextsRead(coeffs: seq<nat>)
    ensures var cs := ReadCommitments(CommitmentTexts(coeffs));
            cs.Some? && Commits(cs.value, coeffs, VSS_P)
  {
    var texts := CommitmentTexts(coeffs);
    forall i | 0 <= i < |texts|
      ensures Parse(texts[i], 16) == Some(Committed(coeffs[i]))
    {
      ParsePrint(Committed(coeffs[i]), 66, 16);
    }
    forall i | 0 <= i < |texts|
      ensures Cong(Committed(coeffs[i]), Pow(4, coeffs[i]), VSS_P)
    {
      CongMod(Pow(VSS_G, coeffs[i]), VSS_P);
    }
  }

  datatype SplitResult = Split(shares: seq<string>, commitments: seq<string>) | SplitFailed

  function LengthHex(n: nat): string {
    PadStart(Print(n, 16), 2)
  }

  // The secret followed by the random draws reduced modulo Q.
  function Coefficients(secret: nat, draws: seq<nat>, k: nat): (cs: seq<nat>)
    requires 1 <= k <= |draws| + 1
    ensures |cs| == k && cs[0] == secret && forall i :: 1 <= i < k ==> cs[i] == draws[i - 1] % VSS_Q
  {
    seq(k, i requires 0 <= i < k => if i == 0 then secret else draws[i - 1] % VSS_Q)
  }

  /** splitSecretVSS; the random bytes of coefficient i are the number draws[i - 1]. */
  method SplitSecretVSS(secretHex: string, n: int, k: int, draws: seq<nat>) returns (r: SplitResult)
    requires k <= |draws| + 1
    ensures r.SplitFailed? <==>
              k > n || k < 1 || |CleanHex(secretHex)| % 2 != 0
              || Parse(CleanHex(secretHex), 16).None? || Parse(CleanHex(secretHex), 16).value >= VSS_Q
    ensures r.Split? ==>
              var clean := CleanHex(secretHex);
              var coeffs := Coefficients(Parse(clean, 16).value, draws, k);
              r == Split(ShareTexts(coeffs, LengthHex(|clean|), n), CommitmentTexts(coeffs))
  {
    if k > n || k < 1 { return SplitFailed; }
    var clean := CleanHex(secretHex);
    if |clean| % 2 != 0 { return SplitFailed; }
    var secretBig := Parse(clean, 16);
    if secretBig.None? || secretBig.value >= VSS_Q { return SplitFailed; }
    var coefficients := DrawCoefficients(secretBig.value, draws, k);
    var lenHex := LengthHex(|clean|);
    var shares := AllShares(coefficients, lenHex, n);
    var commitments := AllCommitments(coefficients);
    return Split(shares, commitments);
  }

  method DrawCoefficients(secret: nat, draws: seq<nat>, k: nat) returns (coefficients: seq<nat>)
    requires 1 <= k <= |draws| + 1
    ensures coefficients == Coefficients(secret, draws, k)
  {
    coefficients := [secret];
    for i := 1 to k
      invariant |coefficients| == i
      invariant coefficients == Coefficients(secret, draws, k)[..i]
    {
      coefficients := coefficients + [draws[i - 1] % VSS_Q];
    }
  }

  method AllShares(coefficients: seq<nat>, lenHex: string, n: nat) returns (shares: seq<string>)
    ensures shares == ShareTexts(coefficients, lenHex, n)
  {
    hide ShareText, ShareTexts, ShareValue;
    shares := [];
    for x := 1 to n + 1
      invariant |shares| == x - 1
      invariant forall i :: 0 <= i < x - 1 ==> shares[i] == ShareTexts(coefficients, lenHex, n)[i]
    {
      var y := EvaluateShare(coefficients, x);
      shares := shares + [ShareText(x, lenHex, y)];
    }
  }

  method AllCommitments(coefficients: seq<nat>) returns (commitments: seq<string>)
    ensures commitments == CommitmentTexts(coefficients)
  {
    hide CommitmentText, CommitmentTexts;
    commitments := [];
    for j := 0 to |coefficients|
      invariant |commitments| == j
      invariant forall i :: 0 <= i < j ==> commitments[i] == CommitmentTexts(coefficients)[i]
    {
      var c := ModPow(VSS_G, coefficients[j], VSS_P);
      commitments := commitments + [CommitmentText(c)];
    }
  }

  /** The inner loop of the share computation: powers of x modulo Q from the lowest up. */
  method EvaluateShare(coefficients: seq<nat>, x: nat) returns (y: nat)
    ensures y == ShareValue(coefficients, x)
  {
    y := 0;
    var xPower: nat := 1;
    RemainderUnique(1, VSS_Q, 0, 1);
    assert coefficients[..0] == [];
    for j := 0 to |coefficients|
      invariant y == Eval(coefficients[..j], x) % VSS_Q
      invariant xPower == Pow(x, j) % VSS_Q
    {
      EvalPrefix(coefficients, j, x);
      ShareStep(Eval(coefficients[..j], x), coefficients[j], Pow(x, j), x, VSS_Q);
      var term := (coefficients[j] * xPower) % VSS_Q;
      y := (y + term) % VSS_Q;
      xPower := (xPower * x) % VSS_Q;
    }
    assert coefficients[..|coefficients|] == coefficients;
  }

  lemma ShareStep(y: int, c: int, pow: int, x: int, q: int)
    requires q > 0
    ensures (y % q + (c * (pow % q)) % q) % q == (y + c * pow) % q
    ensures ((pow % q) * x) % q == (x * pow) % q
  {
    CongMod(pow, q);
    CongMul(c, c, pow % q, pow, q);
    ModAddBoth(y, c * pow, q);
    ModMulLeft(pow, x, q);
  }
}

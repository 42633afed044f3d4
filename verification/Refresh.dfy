/** Proactive refresh of VSS shares by zero-polynomials (proactiveSecretSharing.ts). */
module Refresh {
  import opened Numbers
  import opened Polynomials
  import opened Text
  import opened Vss
  import opened Reconstruct

  // ----- adding sharings -----

  function Plus(a: seq<nat>, b: seq<nat>): (c: seq<nat>)
    requires |a| == |b|
    ensures |c| == |a| && forall i :: 0 <= i < |a| ==> c[i] == a[i] + b[i]
  {
    if a == [] then [] else [a[0] + b[0]] + Plus(a[1..], b[1..])
  }

  lemma {:induction false} EvalPlus(a: seq<nat>, b: seq<nat>, x: int)
    requires |a| == |b|
    ensures Eval(Plus(a, b), x) == Eval(a, x) + Eval(b, x)
  {
    if a != [] {
      EvalPlus(a[1..], b[1..], x);
      assert Plus(a, b)[1..] == Plus(a[1..], b[1..]);
      var u, v := Eval(a[1..], x), Eval(b[1..], x);
      assert x * (u + v) == x * u + x * v;
    }
  }

  predicate AllLength(polys: seq<seq<nat>>, k: nat) {
    forall i :: 0 <= i < |polys| ==> |polys[i]| == k
  }

  // The polynomial shared after n guardians: coeffs plus their zero-polynomials.
  function Refreshed(coeffs: seq<nat>, polys: seq<seq<nat>>, n: nat): (c: seq<nat>)
    requires AllLength(polys, |coeffs|) && n <= |polys|
    ensures |c| == |coeffs|
  {
    if n == 0 then coeffs else Plus(Refreshed(coeffs, polys, n - 1), polys[n - 1])
  }

  // Polynomials that vanish at 0.
  predicate ZeroAtZero(polys: seq<seq<nat>>) {
    forall i :: 0 <= i < |polys| ==> polys[i] != [] && polys[i][0] == 0
  }

  // The refresh leaves the shared secret alone.
  lemma {:induction false} RefreshedSecret(coeffs: seq<nat>, polys: seq<seq<nat>>, n: nat)
    requires AllLength(polys, |coeffs|) && ZeroAtZero(polys) && coeffs != [] && n <= |polys|
    ensures Refreshed(coeffs, polys, n)[0] == coeffs[0]
  {
    if n != 0 { RefreshedSecret(coeffs, polys, n - 1); }
  }

  // The sum of the first n contributions.
  function Sum(cs: seq<nat>, n: nat): nat
    requires n <= |cs|
  {
    if n == 0 then 0 else Sum(cs, n - 1) + cs[n - 1]
  }

  // The contributions to point x.
  function Contributions(polys: seq<seq<nat>>, x: nat): (cs: seq<nat>)
    ensures |cs| == |polys| && forall i :: 0 <= i < |polys| ==> cs[i] == ShareValue(polys[i], x)
  {
    seq(|polys|, i requires 0 <= i < |polys| => ShareValue(polys[i], x))
  }

  // Adding the contributions to a share moves it onto the refreshed polynomial.
  lemma {:induction false} RefreshedShare(coeffs: seq<nat>, polys: seq<seq<nat>>, x: nat, n: nat)
    requires AllLength(polys, |coeffs|) && n <= |polys|
    ensures (ShareValue(coeffs, x) + Sum(Contributions(polys, x), n)) % VSS_Q == ShareValue(Refreshed(coeffs, polys, n), x)
  {
    hide Eval, Plus, Cong, Contributions, AllLength;
    if n == 0 {
      RemainderUnique(ShareValue(coeffs, x), VSS_Q, 0, ShareValue(coeffs, x));
    } else {
      LengthOf(polys, |coeffs|, n - 1);
      RefreshedShare(coeffs, polys, x, n - 1);
      var prev := Refreshed(coeffs, polys, n - 1);
      EvalPlus(prev, polys[n - 1], x);
      ShareSum(ShareValue(coeffs, x) + Sum(Contributions(polys, x), n - 1), Eval(prev, x), Eval(polys[n - 1], x), VSS_Q);
    }
  }

  lemma LengthOf(polys: seq<seq<nat>>, k: nat, i: nat)
    requires AllLength(polys, k) && i < |polys|
    ensures |polys[i]| == k
  {}

  lemma ShareSum(y: int, u: int, v: int, q: int)
    requires q > 0 && y % q == u % q
    ensures (y + v % q) % q == (u + v) % q
  {
    CongMod(v, q);
    CongAdd(y, u, v % q, v, q);
  }

  // ----- generating and checking zero-polynomials -----

  datatype ZeroPolynomial = ZeroPolynomial(guardianIndex: nat, coefficients: seq<nat>,
                                           zeroCommitments: seq<string>, subshares: map<nat, nat>)

  // An honest zero-polynomial of a guardian among n, of k coefficients.
  ghost predicate IsZeroPolynomial(z: ZeroPolynomial, k: nat, n: nat) {
    && |z.coefficients| == k && k > 0 && z.coefficients[0] == 0
    && z.zeroCommitments == CommitmentTexts(z.coefficients)
    && forall j :: 1 <= j <= n ==> j in z.subshares && z.subshares[j] == ShareValue(z.coefficients, j)
  }

  /** generateZeroPolynomialVSS; draws[m - 1] is the random scalar of coefficient m. */
  method GenerateZeroPolynomial(threshold: int, n: nat, index: nat, draws: seq<nat>) returns (r: Option<ZeroPolynomial>)
    requires threshold <= |draws| + 1
    ensures r.None? <==> threshold < 1 || threshold > n
    ensures r.Some? ==> IsZeroPolynomial(r.value, threshold, n)
    ensures r.Some? ==> r.value.guardianIndex == index && r.value.coefficients == Coefficients(0, draws, threshold)
  {
    if threshold < 1 || threshold > n { return None; }
    var coefficients: seq<nat> := [0];
    for m := 1 to threshold
      invariant |coefficients| == m && coefficients == Coefficients(0, draws, threshold)[..m]
    {
      coefficients := coefficients + [draws[m - 1] % VSS_Q];
    }
    assert coefficients == Coefficients(0, draws, threshold);
    var zeroCommitments: seq<string> := [];
    for m := 0 to threshold
      invariant zeroCommitments == CommitmentTexts(coefficients)[..m]
    {
      var comm := PowMod(VSS_G, coefficients[m], VSS_P);
      zeroCommitments := zeroCommitments + [CommitmentText(comm)];
    }
    assert zeroCommitments == CommitmentTexts(coefficients);
    var subshares: map<nat, nat> := map[];
    for j := 1 to n + 1
      invariant forall i :: 1 <= i < j ==> i in subshares && subshares[i] == ShareValue(coefficients, i)
    {
      var val := EvaluateShare(coefficients, j);
      subshares := subshares[j := val];
    }
    return Some(ZeroPolynomial(index, coefficients, zeroCommitments, subshares));
  }

  /** verifyZeroShareContribution; unreadable commitments throw there and count as a rejection. */
  method VerifyZeroShare(contribution: nat, x: nat, zeroCommitments: seq<string>) returns (ok: bool)
    ensures var cs := ReadCommitments(zeroCommitments);
            ok == (cs.Some? && Verifies(x, contribution, cs.value, VSS_Q, VSS_P))
  {
    var lhs := PowMod(VSS_G, contribution, VSS_P);
    var rhs := EvaluateCommitments(x, zeroCommitments);
    return rhs.Some? && lhs == rhs.value;
  }

  // A contribution is accepted exactly when it is the committed polynomial's value there.
  lemma ZeroShareExact(z: seq<nat>, x: nat, contribution: nat)
    requires SafePrime(VSS_Q, VSS_P)
    ensures var cs := ReadCommitments(CommitmentTexts(z));
            cs.Some? && (Verifies(x, contribution, cs.value, VSS_Q, VSS_P) <==> Cong(contribution, Eval(z, x), VSS_Q))
  {
    CommitmentTextsRead(z);
    VerifiesExactly(x, contribution, ReadCommitments(CommitmentTexts(z)).value, z, VSS_Q, VSS_P);
  }

  // ----- applying a refresh -----

  // parseInt(s, 10): the leading digits, None for NaN.
  function ParseInt(s: string): Option<nat> {
    Parse(LeadingDigits(s), 10)
  }

  function LeadingDigits(s: string): (ds: string)
    ensures ds <= s
  {
    if s == "" || CharDigit(s[0]) >= 10 then "" else [s[0]] + LeadingDigits(s[1..])
  }

  lemma {:induction false} AllLeading(s: string)
    requires AreChars(s, 10)
    ensures LeadingDigits(s) == s
  {
    if s != "" {
      AllLeading(s[1..]);
      assert s == [s[0]] + s[1..];
    }
  }

  /** updateShareVSS. A malformed share throws; a point without leading digits prints as NaN.
      The ghost arguments name the content of a well-formed share. */
  method UpdateShare(share: string, contributions: seq<nat>, ghost at: nat, ghost mark: string, ghost value: nat)
    returns (r: Option<string>)
    ensures share == ShareText(at, mark, value) && |mark| == 2 && AreChars(mark, 16) && value < VSS_Q ==>
              r == Some(ShareText(at, mark, (value + Sum(contributions, |contributions|)) % VSS_Q))
  {
    if share == ShareText(at, mark, value) && |mark| == 2 && AreChars(mark, 16) {
      ShareReadsForUpdate(at, mark, value);
    }
    var parts := SplitOnDash(share);
    if |parts| != 2 { return None; }
    var x := ParseInt(parts[0]);
    if !IsVssBody(parts[1]) { return None; }
    var lenHex := Prefix(Slice(parts[1], 3), 2);
    var start := Parse(Slice(parts[1], 5), 16);
    if start.None? { return None; }
    var y := AddContributions(start.value, contributions);
    var point := if x.Some? then Print(x.value, 10) else "NaN";
    return Some(point + "-" + ("vss" + lenHex + PadStart(Print(y, 16), 64)));
  }

  /** The loop of updateShareVSS. */
  method AddContributions(start: nat, contributions: seq<nat>) returns (y: nat)
    ensures contributions == [] ==> y == start
    ensures contributions != [] || start < VSS_Q ==> y == (start + Sum(contributions, |contributions|)) % VSS_Q
  {
    y := start;
    for i := 0 to |contributions|
      invariant i == 0 ==> y == start
      invariant i > 0 || start < VSS_Q ==> y < VSS_Q
      invariant Cong(y, start + Sum(contributions, i), VSS_Q)
    {
      CongAdd(y, start + Sum(contributions, i), contributions[i], contributions[i], VSS_Q);
      CongMod(y + contributions[i], VSS_Q);
      y := (y + contributions[i]) % VSS_Q;
    }
    if y < VSS_Q { RemainderUnique(y, VSS_Q, 0, y); }
  }

  ghost predicate UpdateReads(share: string, x: nat, lenHex: string, y: nat) {
    var parts := SplitOnDash(share);
    && |parts| == 2 && IsVssBody(parts[1]) && ParseInt(parts[0]) == Some(x)
    && Prefix(Slice(parts[1], 3), 2) == lenHex && Parse(Slice(parts[1], 5), 16) == Some(y)
  }

  lemma ShareReadsForUpdate(x: nat, lenHex: string, y: nat)
    requires |lenHex| == 2 && AreChars(lenHex, 16)
    ensures UpdateReads(ShareText(x, lenHex, y), x, lenHex, y)
  {
    ReadShareText(x, lenHex, y);
    ReadShareBody(lenHex, y);
    ReadDecimal(x);
    AllLeading(Print(x, 10));
    ReadPoint(x);
  }

  lemma ReadPoint(x: nat)
    ensures Parse(Print(x, 10), 10) == Some(x)
  {
    ParsePrint(x, 0, 10);
    assert PadStart(Print(x, 10), 0) == Print(x, 10);
  }

  // The matrix of zero-commitments published for the zero-polynomials.
  function ZeroCommitmentTexts(polys: seq<seq<nat>>): (m: seq<seq<string>>)
    ensures |m| == |polys| && forall i :: 0 <= i < |m| ==> m[i] == CommitmentTexts(polys[i])
  {
    seq(|polys|, i requires 0 <= i < |polys| => CommitmentTexts(polys[i]))
  }

  // Published commitments to coeffs, and the zero-commitments of polys.
  ghost predicate HonestCommitments(current: seq<string>, matrix: seq<seq<string>>, coeffs: seq<nat>, polys: seq<seq<nat>>) {
    && coeffs != [] && AllLength(polys, |coeffs|) && ZeroAtZero(polys)
    && current == CommitmentTexts(coeffs) && matrix == ZeroCommitmentTexts(polys)
  }

  // Multiplying commitments adds what they commit to.
  lemma CommittedSum(a: nat, b: nat)
    ensures Committed(a) * Committed(b) % VSS_P == Committed(a + b)
  {
    PowAdd(VSS_G, a, b);
    ModMulBoth(Pow(VSS_G, a), Pow(VSS_G, b), VSS_P);
  }

  lemma CommitmentReads(coeffs: seq<nat>, m: nat)
    requires m < |coeffs|
    ensures Parse(CommitmentTexts(coeffs)[m], 16) == Some(Committed(coeffs[m]))
  {
    hide Committed, Parse, PadStart, Print;
    ParsePrint(Committed(coeffs[m]), 66, 16);
  }

  // The running product of column m after i guardians.
  function ColumnValue(coeffs: seq<nat>, polys: seq<seq<nat>>, i: nat, m: nat): nat
    requires AllLength(polys, |coeffs|) && i <= |polys| && m < |coeffs|
  {
    if i == 0 then Committed(coeffs[m])
    else ColumnValue(coeffs, polys, i - 1, m) * Committed(polys[i - 1][m]) % VSS_P
  }

  lemma {:induction false} ColumnIsPower(coeffs: seq<nat>, polys: seq<seq<nat>>, i: nat, m: nat)
    requires AllLength(polys, |coeffs|) && i <= |polys| && m < |coeffs|
    ensures ColumnValue(coeffs, polys, i, m) == Committed(Refreshed(coeffs, polys, i)[m])
  {
    if i != 0 {
      ColumnIsPower(coeffs, polys, i - 1, m);
      hide Committed;
      CommittedSum(Refreshed(coeffs, polys, i - 1)[m], polys[i - 1][m]);
    }
  }

  lemma AllColumns(coeffs: seq<nat>, polys: seq<seq<nat>>, updated: seq<string>)
    requires AllLength(polys, |coeffs|) && |updated| == |coeffs|
    requires forall m :: 0 <= m < |updated| ==> updated[m] == CommitmentText(ColumnValue(coeffs, polys, |polys|, m))
    ensures updated == CommitmentTexts(Refreshed(coeffs, polys, |polys|))
  {
    hide CommitmentText, CommitmentTexts, Committed, ColumnValue, Refreshed;
    forall m | 0 <= m < |updated|
      ensures updated[m] == CommitmentTexts(Refreshed(coeffs, polys, |polys|))[m]
    {
      ColumnIsPower(coeffs, polys, |polys|, m);
    }
  }

  /** The inner loop of updateCommitmentsVSS: the product of column m, throwing on a vector of
      the wrong length. */
  method UpdateColumn(current: seq<string>, matrix: seq<seq<string>>, m: nat, ghost coeffs: seq<nat>, ghost polys: seq<seq<nat>>)
    returns (r: Option<nat>)
    requires m < |current|
    ensures HonestCommitments(current, matrix, coeffs, polys) ==>
              r == Some(ColumnValue(coeffs, polys, |polys|, m))
  {
    hide CommitmentTexts, ZeroCommitmentTexts, Parse, Committed;
    ghost var honest := HonestCommitments(current, matrix, coeffs, polys);
    if honest { CommitmentReads(coeffs, m); }
    var c := Parse(current[m], 16);
    if c.None? { return None; }
    var cm: nat := c.value;
    for i := 0 to |matrix|
      invariant honest ==> cm == ColumnValue(coeffs, polys, i, m)
    {
      if honest { CommitmentReads(polys[i], m); }
      if |matrix[i]| != |current| { return None; }
      var zm := Parse(matrix[i][m], 16);
      if zm.None? { return None; }
      cm := (cm * zm.value) % VSS_P;
    }
    return Some(cm);
  }

  /** updateCommitmentsVSS, with its ways to throw. The ghost arguments name the polynomials
      behind honest inputs, for which it cannot throw. */
  method UpdateCommitments(current: seq<string>, matrix: seq<seq<string>>, ghost coeffs: seq<nat>, ghost polys: seq<seq<nat>>)
    returns (r: Option<seq<string>>)
    ensures HonestCommitments(current, matrix, coeffs, polys) ==>
              r == Some(CommitmentTexts(Refreshed(coeffs, polys, |polys|)))
    ensures r.Some? ==> |r.value| == |current| > 0 && Parse(r.value[0], 16) == Parse(current[0], 16)
  {
    ghost var honest := HonestCommitments(current, matrix, coeffs, polys);
    var updated: seq<string> := [];
    for m := 0 to |current|
      invariant |updated| == m
      invariant honest ==> forall j :: 0 <= j < m ==> updated[j] == CommitmentText(ColumnValue(coeffs, polys, |polys|, j))
    {
      var cm := UpdateColumn(current, matrix, m, coeffs, polys);
      if cm.None? { return None; }
      updated := updated + [CommitmentText(cm.value)];
    }
    if |current| == 0 { return None; }
    if honest {
      AllColumns(coeffs, polys, updated);
      UpdatedCommitmentKept(coeffs, polys);
    }
    var initialC0, finalC0 := Parse(current[0], 16), Parse(updated[0], 16);
    if initialC0 != finalC0 { return None; }
    return Some(updated);
  }

  lemma UpdatedCommitmentKept(coeffs: seq<nat>, polys: seq<seq<nat>>)
    requires coeffs != [] && AllLength(polys, |coeffs|) && ZeroAtZero(polys)
    ensures CommitmentTexts(Refreshed(coeffs, polys, |polys|))[0] == CommitmentTexts(coeffs)[0]
  {
    hide CommitmentText, Committed, AllLength, ZeroAtZero, Refreshed;
    RefreshedSecret(coeffs, polys, |polys|);
  }

  // ----- the whole refresh -----

  datatype RefreshResult = Done(shares: seq<string>, commitments: seq<string>, recovered: string, epoch: nat) | Error

  // The random zero-polynomials of n guardians.
  function ZeroPolynomials(draws: seq<seq<nat>>, threshold: nat, n: nat): (polys: seq<seq<nat>>)
    requires 1 <= threshold && n <= |draws| && forall i :: 0 <= i < n ==> threshold <= |draws[i]| + 1
    ensures |polys| == n && AllLength(polys, threshold) && ZeroAtZero(polys)
    ensures forall i :: 0 <= i < n ==> polys[i] == Coefficients(0, draws[i], threshold)
  {
    if n == 0 then [] else ZeroPolynomials(draws, threshold, n - 1) + [Coefficients(0, draws[n - 1], threshold)]
  }

  // Shares of one polynomial with shares[j] at j + 1, and its published commitments.
  ghost predicate HonestSharing(shares: seq<string>, commitments: seq<string>, coeffs: seq<nat>, lenHex: string) {
    && 1 <= |coeffs| && coeffs[0] < VSS_Q && |shares| < VSS_Q
    && |lenHex| == 2 && AreChars(lenHex, 16)
    && shares == ShareTexts(coeffs, lenHex, |shares|)
    && commitments == CommitmentTexts(coeffs)
  }

  // Zero-polynomials generated for these coefficient lists.
  ghost predicate AreZeroPolynomials(zs: seq<ZeroPolynomial>, polys: seq<seq<nat>>, k: nat, n: nat) {
    |zs| == |polys| && forall i :: 0 <= i < |zs| ==> IsZeroPolynomial(zs[i], k, n) && zs[i].coefficients == polys[i]
  }

  /** Step 1: every guardian's zero-polynomial. */
  method GenerateAll(threshold: nat, n: nat, draws: seq<seq<nat>>) returns (zs: seq<ZeroPolynomial>)
    requires 1 <= threshold <= n <= |draws| && forall i :: 0 <= i < n ==> threshold <= |draws[i]| + 1
    ensures AreZeroPolynomials(zs, ZeroPolynomials(draws, threshold, n), threshold, n)
  {
    zs := [];
    for i := 0 to n
      invariant AreZeroPolynomials(zs, ZeroPolynomials(draws, threshold, i), threshold, n)
    {
      var z := GenerateZeroPolynomial(threshold, n, i + 1, draws[i]);
      zs := zs + [z.value];
    }
  }

  /** Step 2: every contribution against the published zero-commitments; it never fails. */
  method VerifyAll(zs: seq<ZeroPolynomial>, n: nat, ghost polys: seq<seq<nat>>, ghost k: nat) returns (ok: bool)
    requires SafePrime(VSS_Q, VSS_P) && AreZeroPolynomials(zs, polys, k, n)
    ensures ok
  {
    for i := 0 to |zs| {
      for j := 1 to n + 1 {
        var valid := VerifyZeroShare(zs[i].subshares[j], j, zs[i].zeroCommitments);
        ZeroShareExact(zs[i].coefficients, j, zs[i].subshares[j]);
        CongMod(Eval(zs[i].coefficients, j), VSS_Q);
        if !valid { return false; }
      }
    }
    return true;
  }

  /** Step 3: shares[j] plus every guardian's contribution to point j + 1. */
  method UpdateAll(shares: seq<string>, zs: seq<ZeroPolynomial>, ghost polys: seq<seq<nat>>, ghost coeffs: seq<nat>, ghost lenHex: string)
    returns (r: Option<seq<string>>)
    requires AreZeroPolynomials(zs, polys, |coeffs|, |shares|) && AllLength(polys, |coeffs|)
    ensures |lenHex| == 2 && AreChars(lenHex, 16) && shares == ShareTexts(coeffs, lenHex, |shares|) ==>
              r == Some(ShareTexts(Refreshed(coeffs, polys, |polys|), lenHex, |shares|))
    ensures r.Some? ==> |r.value| == |shares|
  {
    hide ShareText, ShareTexts, ShareValue, AreChars, Refreshed, Contributions, AreZeroPolynomials, AllLength, Sum;
    ghost var honest := |lenHex| == 2 && AreChars(lenHex, 16) && shares == ShareTexts(coeffs, lenHex, |shares|);
    var refreshed: seq<string> := [];
    for j := 0 to |shares|
      invariant |refreshed| == j
      invariant honest ==> forall i :: 0 <= i < j ==> refreshed[i] == ShareTexts(Refreshed(coeffs, polys, |polys|), lenHex, |shares|)[i]
    {
      var contributions := CollectContributions(zs, j + 1, |shares|, polys, |coeffs|);
      var updated := UpdateShare(shares[j], contributions, j + 1, lenHex, ShareValue(coeffs, j + 1));
      if updated.None? { return None; }
      RefreshedShare(coeffs, polys, j + 1, |polys|);
      refreshed := refreshed + [updated.value];
    }
    assert honest ==> refreshed == ShareTexts(Refreshed(coeffs, polys, |polys|), lenHex, |shares|);
    return Some(refreshed);
  }

  method CollectContributions(zs: seq<ZeroPolynomial>, j: nat, n: nat, ghost polys: seq<seq<nat>>, ghost k: nat) returns (cs: seq<nat>)
    requires AreZeroPolynomials(zs, polys, k, n) && 1 <= j <= n
    ensures cs == Contributions(polys, j)
  {
    cs := [];
    for i := 0 to |zs|
      invariant |cs| == i && forall m :: 0 <= m < i ==> cs[m] == ShareValue(polys[m], j)
    {
      cs := cs + [zs[i].subshares[j]];
    }
  }

  method CollectCommitments(zs: seq<ZeroPolynomial>, n: nat, ghost polys: seq<seq<nat>>, ghost k: nat) returns (matrix: seq<seq<string>>)
    requires AreZeroPolynomials(zs, polys, k, n)
    ensures matrix == ZeroCommitmentTexts(polys)
  {
    matrix := [];
    for i := 0 to |zs|
      invariant |matrix| == i && forall m :: 0 <= m < i ==> matrix[m] == CommitmentTexts(polys[m])
    {
      matrix := matrix + [zs[i].zeroCommitments];
    }
  }

  // A share text lies on the polynomial its commitments commit to, so it is accepted.
  lemma HonestShareAccepted(coeffs: seq<nat>, lenHex: string, x: nat)
    requires SafePrime(VSS_Q, VSS_P) && |lenHex| == 2 && AreChars(lenHex, 16)
    ensures ShareAccepted(ShareText(x, lenHex, ShareValue(coeffs, x)), CommitmentTexts(coeffs))
  {
    hide ShareText, CommitmentTexts;
    var y := ShareValue(coeffs, x);
    ReadShareBack(x, lenHex, y);
    CommitmentTextsRead(coeffs);
    VerifiesExactly(x, y, ReadCommitments(CommitmentTexts(coeffs)).value, coeffs, VSS_Q, VSS_P);
    CongMod(Eval(coeffs, x), VSS_Q);
  }

  lemma ReadShareBack(x: nat, lenHex: string, y: nat)
    requires |lenHex| == 2 && AreChars(lenHex, 16)
    ensures ReadVssShare(ShareText(x, lenHex, y)) == Some((x, y))
  {
    ReadShareText(x, lenHex, y);
    ReadShareBody(lenHex, y);
  }

  /** Step 5: every refreshed share against the refreshed commitments. */
  method VerifyShares(shares: seq<string>, commitments: seq<string>) returns (ok: bool)
    ensures ok <==> forall i :: 0 <= i < |shares| ==> ShareAccepted(shares[i], commitments)
  {
    hide ShareAccepted;
    for i := 0 to |shares|
      invariant forall j :: 0 <= j < i ==> ShareAccepted(shares[j], commitments)
    {
      var valid := VerifyShare(shares[i], commitments);
      if !valid { return false; }
    }
    return true;
  }

  // The first k shares are the selection 1, ..., k.
  function FirstPicks(k: nat): (picks: seq<nat>)
    ensures |picks| == k && IsSelection(picks, k)
    ensures forall i :: 0 <= i < k ==> picks[i] == i + 1
  {
    if k == 0 then [] else FirstPicks(k - 1) + [k]
  }

  lemma FirstPicksWithin(k: nat, n: nat)
    requires k <= n
    ensures IsSelection(FirstPicks(k), n)
  {
    hide FirstPicks;
  }

  lemma FirstSharesReconstruct(coeffs: seq<nat>, lenHex: string, n: nat, r: Reconstruction)
    requires 1 <= |coeffs| <= n < VSS_Q && coeffs[0] < VSS_Q && |lenHex| == 2 && AreChars(lenHex, 16)
    requires IsReconstruction(ShareTexts(coeffs, lenHex, n)[..|coeffs|], r)
    ensures r == Secret(PadStart(Print(coeffs[0], 16), ParseLength(lenHex)))
  {
    hide ShareText, ShareTexts, Picked, ShareValue, IsReconstruction, Print, PadStart, ParseLength, IsSelection, FirstPicks, AreChars;
    var picks := FirstPicks(|coeffs|);
    FirstPicksWithin(|coeffs|, n);
    assert ShareTexts(coeffs, lenHex, n)[..|coeffs|] == Picked(coeffs, lenHex, picks);
    ReconstructSelection(coeffs, lenHex, picks, n, r);
  }

  /** proactiveRefreshVSS. Whatever the inputs, success means that every new share verifies,
      that the commitment to the secret is untouched and that old and new shares reconstruct
      the same text. For an honest sharing no error is reachable, whatever the random draws,
      and the result is again an honest sharing of the same secret. */
  method ProactiveRefresh(shares: seq<string>, commitments: seq<string>, threshold: int, epoch: nat, draws: seq<seq<nat>>,
                          ghost coeffs: seq<nat>, ghost lenHex: string)
    returns (r: RefreshResult)
    requires SafePrime(VSS_Q, VSS_P)
    requires |shares| <= |draws| && forall i :: 0 <= i < |shares| ==> threshold <= |draws[i]| + 1
    ensures threshold < 1 || threshold > |shares| ==> r.Error?
    ensures r.Done? ==>
              && |r.shares| == |shares| && r.epoch == epoch && 1 <= threshold <= |shares|
              && (forall i :: 0 <= i < |shares| ==> ShareAccepted(r.shares[i], r.commitments))
              && |r.commitments| == |commitments| > 0 && Parse(r.commitments[0], 16) == Parse(commitments[0], 16)
              && IsReconstruction(shares[..threshold], Secret(r.recovered))
              && IsReconstruction(r.shares[..threshold], Secret(r.recovered))
    ensures HonestSharing(shares, commitments, coeffs, lenHex) && threshold == |coeffs| <= |shares| ==>
              && r.Done? && r.recovered == PadStart(Print(coeffs[0], 16), ParseLength(lenHex))
              && var c := Refreshed(coeffs, ZeroPolynomials(draws, threshold, |shares|), |shares|);
                 c[0] == coeffs[0] && HonestSharing(r.shares, r.commitments, c, lenHex)
  {
    hide ShareTexts, CommitmentTexts, ShareAccepted, IsReconstruction, Print, PadStart, ParseLength, ShareText, CommitmentText,
         Committed, ShareValue, Refreshed, Parse, AreChars;
    var n := |shares|;
    if threshold < 1 || threshold > n { return Error; }
    ghost var honest := HonestSharing(shares, commitments, coeffs, lenHex) && threshold == |coeffs|;
    ghost var polys := ZeroPolynomials(draws, threshold, n);
    var zs := GenerateAll(threshold, n, draws);
    var contributionsOk := VerifyAll(zs, n, polys, threshold);
    if !contributionsOk { return Error; }
    ghost var c := if honest then coeffs else seq(threshold, i => 0);
    var refreshed := UpdateAll(shares, zs, polys, c, lenHex);
    if refreshed.None? { return Error; }
    var matrix := CollectCommitments(zs, n, polys, threshold);
    var updated := UpdateCommitments(commitments, matrix, c, polys);
    if updated.None? { return Error; }
    if honest { HonestRefresh(coeffs, lenHex, polys, n); }
    var sharesOk := VerifyShares(refreshed.value, updated.value);
    if !sharesOk { return Error; }
    var recovered := ReconstructSecret(refreshed.value[..threshold]);
    var original := ReconstructSecret(shares[..threshold]);
    if honest {
      FirstSharesReconstruct(coeffs, lenHex, n, original);
      FirstSharesReconstruct(Refreshed(coeffs, polys, n), lenHex, n, recovered);
    }
    if !recovered.Secret? || recovered != original { return Error; }
    return Done(refreshed.value, updated.value, recovered.hex, epoch);
  }

  // What honest inputs guarantee about the refreshed sharing.
  lemma HonestRefresh(coeffs: seq<nat>, lenHex: string, polys: seq<seq<nat>>, n: nat)
    requires SafePrime(VSS_Q, VSS_P) && |lenHex| == 2 && AreChars(lenHex, 16) && coeffs != []
    requires AllLength(polys, |coeffs|) && ZeroAtZero(polys)
    ensures var c := Refreshed(coeffs, polys, |polys|);
            c[0] == coeffs[0] && forall i :: 0 <= i < n ==> ShareAccepted(ShareTexts(c, lenHex, n)[i], CommitmentTexts(c))
  {
    hide ShareText, CommitmentTexts, ShareAccepted;
    var c := Refreshed(coeffs, polys, |polys|);
    RefreshedSecret(coeffs, polys, |polys|);
    forall i | 0 <= i < n
      ensures ShareAccepted(ShareTexts(c, lenHex, n)[i], CommitmentTexts(c))
    {
      HonestShareAccepted(c, lenHex, i + 1);
    }
  }
}

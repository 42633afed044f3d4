/** Printing and parsing 256-bit integers: the patched ethnum crate's fmt.rs and parse.rs. */
module Decimal {
  import opened Numbers
  import opened Radix
  import opened Text

  // ----- the two-digit table -----

  const ROW0: string := "0001020304050607080910111213141516171819"
  const ROW1: string := "2021222324252627282930313233343536373839"
  const ROW2: string := "4041424344454647484950515253545556575859"
  const ROW3: string := "6061626364656667686970717273747576777879"
  const ROW4: string := "8081828384858687888990919293949596979899"

  const DEC_DIGITS_LUT: string := ROW0 + ROW1 + ROW2 + ROW3 + ROW4

  // Characters 2j and 2j + 1 are the two digits of start + j.
  predicate Entry(row: string, j: nat, start: nat)
    requires 2 * j + 1 < |row| && start + j < 100
  {
    row[2 * j] == '0' + ((start + j) / 10) as char && row[2 * j + 1] == '0' + ((start + j) % 10) as char
  }

  // Row r holds the two digits of 20r, ..., 20r + 19.
  ghost predicate IsRow(row: string, r: nat)
    requires r < 5
  {
    |row| == 40 && forall j :: 0 <= j < 20 ==> Entry(row, j, 20 * r)
  }

  lemma Row0(j: nat)
    requires j < 20
    ensures |ROW0| == 40 && ROW0[2 * j] == '0' + (j / 10) as char && ROW0[2 * j + 1] == '0' + (j % 10) as char
  {
    if j < 10 {
      if j == 0 {} else if j == 1 {} else if j == 2 {} else if j == 3 {} else if j == 4 {} else if j == 5 {} else if j == 6 {} else if j == 7 {} else if j == 8 {} else {}
    } else {
      if j == 10 {} else if j == 11 {} else if j == 12 {} else if j == 13 {} else if j == 14 {} else if j == 15 {} else if j == 16 {} else if j == 17 {} else if j == 18 {} else {}
    }
  }

  lemma Row1(j: nat)
    requires j < 20
    ensures |ROW1| == 40 && ROW1[2 * j] == '0' + (2 + j / 10) as char && ROW1[2 * j + 1] == '0' + (j % 10) as char
  {
    if j < 10 {
      if j == 0 {} else if j == 1 {} else if j == 2 {} else if j == 3 {} else if j == 4 {} else if j == 5 {} else if j == 6 {} else if j == 7 {} else if j == 8 {} else {}
    } else {
      if j == 10 {} else if j == 11 {} else if j == 12 {} else if j == 13 {} else if j == 14 {} else if j == 15 {} else if j == 16 {} else if j == 17 {} else if j == 18 {} else {}
    }
  }

  lemma Row2(j: nat)
    requires j < 20
    ensures |ROW2| == 40 && ROW2[2 * j] == '0' + (4 + j / 10) as char && ROW2[2 * j + 1] == '0' + (j % 10) as char
  {
    if j < 10 {
      if j == 0 {} else if j == 1 {} else if j == 2 {} else if j == 3 {} else if j == 4 {} else if j == 5 {} else if j == 6 {} else if j == 7 {} else if j == 8 {} else {}
    } else {
      if j == 10 {} else if j == 11 {} else if j == 12 {} else if j == 13 {} else if j == 14 {} else if j == 15 {} else if j == 16 {} else if j == 17 {} else if j == 18 {} else {}
    }
  }

  lemma Row3(j: nat)
    requires j < 20
    ensures |ROW3| == 40 && ROW3[2 * j] == '0' + (6 + j / 10) as char && ROW3[2 * j + 1] == '0' + (j % 10) as char
  {
    if j < 10 {
      if j == 0 {} else if j == 1 {} else if j == 2 {} else if j == 3 {} else if j == 4 {} else if j == 5 {} else if j == 6 {} else if j == 7 {} else if j == 8 {} else {}
    } else {
      if j == 10 {} else if j == 11 {} else if j == 12 {} else if j == 13 {} else if j == 14 {} else if j == 15 {} else if j == 16 {} else if j == 17 {} else if j == 18 {} else {}
    }
  }

  lemma Row4(j: nat)
    requires j < 20
    ensures |ROW4| == 40 && ROW4[2 * j] == '0' + (8 + j / 10) as char && ROW4[2 * j + 1] == '0' + (j % 10) as char
  {
    if j < 10 {
      if j == 0 {} else if j == 1 {} else if j == 2 {} else if j == 3 {} else if j == 4 {} else if j == 5 {} else if j == 6 {} else if j == 7 {} else if j == 8 {} else {}
    } else {
      if j == 10 {} else if j == 11 {} else if j == 12 {} else if j == 13 {} else if j == 14 {} else if j == 15 {} else if j == 16 {} else if j == 17 {} else if j == 18 {} else {}
    }
  }

  lemma Rows()
    ensures IsRow(ROW0, 0) && IsRow(ROW1, 1) && IsRow(ROW2, 2) && IsRow(ROW3, 3) && IsRow(ROW4, 4)
  {
    Row0(0);
    Row1(0);
    Row2(0);
    Row3(0);
    Row4(0);
    forall j | 0 <= j < 20
      ensures Entry(ROW0, j, 0) && Entry(ROW1, j, 20) && Entry(ROW2, j, 40) && Entry(ROW3, j, 60) && Entry(ROW4, j, 80)
    {
      Row0(j);
      Row1(j);
      Row2(j);
      Row3(j);
      Row4(j);
    }
  }

  lemma TableOfRows(a: string, b: string, c: string, d: string, e: string, k: nat)
    requires IsRow(a, 0) && IsRow(b, 1) && IsRow(c, 2) && IsRow(d, 3) && IsRow(e, 4) && k < 100
    ensures |a + b + c + d + e| == 200 && Entry(a + b + c + d + e, k, 0)
  {
    var r := k / 20;
    var t := a + b + c + d + e;
    hide IsRow, Entry;
    RowLength(a, 0);
    RowLength(b, 1);
    RowLength(c, 2);
    RowLength(d, 3);
    RowLength(e, 4);
    if r == 0 {
      RowInside("", a, b + c + d + e, 0, k);
      assert t == "" + a + (b + c + d + e);
    } else if r == 1 {
      RowInside(a, b, c + d + e, 1, k);
      assert t == a + b + (c + d + e);
    } else if r == 2 {
      RowInside(a + b, c, d + e, 2, k);
      assert t == (a + b) + c + (d + e);
    } else if r == 3 {
      RowInside(a + b + c, d, e, 3, k);
    } else {
      RowInside(a + b + c + d, e, "", 4, k);
      assert t == (a + b + c + d) + e + "";
    }
  }

  lemma RowLength(row: string, r: nat)
    requires r < 5 && IsRow(row, r)
    ensures |row| == 40
  {}

  lemma RowInside(before: string, row: string, after: string, r: nat, k: nat)
    requires r < 5 && IsRow(row, r) && |before| == 40 * r && k / 20 == r
    ensures Entry(before + row + after, k, 0)
  {
    var t, j := before + row + after, k % 20;
    assert Entry(row, j, 20 * r);
    assert t[2 * k] == row[2 * j] && t[2 * k + 1] == row[2 * j + 1];
  }

  lemma DecimalChar(d: nat)
    requires d < 10
    ensures DigitChar(d) == '0' + d as char
  {
    if d < 5 {} else {}
  }

  // Entry k of the table is the two digits of k.
  lemma TableEntry(k: nat)
    requires k < 100
    ensures |DEC_DIGITS_LUT| == 200
    ensures DEC_DIGITS_LUT[2 * k] == DigitChar(k / 10) && DEC_DIGITS_LUT[2 * k + 1] == DigitChar(k % 10)
  {
    hide IsRow, DigitChar;
    Rows();
    TableOfRows(ROW0, ROW1, ROW2, ROW3, ROW4, k);
    DecimalChar(k / 10);
    DecimalChar(k % 10);
  }

  // ----- printing -----

  // buf[curr..] holds the digits ds in base b.
  ghost predicate Holds(buf: seq<char>, curr: int, ds: seq<nat>, b: nat)
    requires b <= 16 && AreDigits(ds, b)
  {
    && 0 <= curr && curr + |ds| == |buf|
    && forall i :: 0 <= i < |ds| ==> buf[curr + i] == DigitChar(ds[i])
  }

  /** Copying table entry k to buf[curr..curr + 2], in front of what is already there. */
  method CopyPair(buf: array<char>, curr: nat, k: nat, ghost ds: seq<nat>)
    requires curr + 2 <= buf.Length && k < 100 && AreDigits(ds, 10) && Holds(buf[..], curr + 2, ds, 10)
    modifies buf
    ensures AreDigits([k / 10, k % 10] + ds, 10) && Holds(buf[..], curr, [k / 10, k % 10] + ds, 10)
  {
    TableEntry(k);
    ghost var before := buf[..];
    buf[curr] := DEC_DIGITS_LUT[2 * k];
    buf[curr + 1] := DEC_DIGITS_LUT[2 * k + 1];
    ghost var more := [k / 10, k % 10] + ds;
    forall i | 0 <= i < |more|
      ensures buf[..][curr + i] == DigitChar(more[i])
    {
      if i >= 2 { assert buf[..][curr + i] == before[curr + 2 + (i - 2)]; }
    }
  }

  // Two, and four, digits at a time.
  lemma PairOfDigits(n: nat)
    requires n >= 100
    ensures Digits(n, 10) == Digits(n / 100, 10) + [n % 100 / 10, n % 100 % 10]
  {
    assert Digits(n, 10) == Digits(n / 10, 10) + [n % 10];
    assert Digits(n / 10, 10) == Digits(n / 10 / 10, 10) + [n / 10 % 10];
  }

  lemma DivideTwice(n: nat)
    ensures n / 100 / 100 == n / 10000 && n % 100 == n % 10000 % 100 && n / 100 % 100 == n % 10000 / 100
  {
    var q, r := n / 10000, n % 10000;
    var h, l := r / 100, r % 100;
    assert n == q * 10000 + h * 100 + l;
    RemainderUnique(n, 100, q * 100 + h, l);
    RemainderUnique(q * 100 + h, 100, q, h);
  }

  lemma FourDigits(n: nat)
    requires n >= 10000
    ensures var rem := n % 10000;
            Digits(n, 10) == Digits(n / 10000, 10) + ([rem / 100 / 10, rem / 100 % 10] + [rem % 100 / 10, rem % 100 % 10])
  {
    PairOfDigits(n);
    PairOfDigits(n / 100);
    hide Digits;
    DivideTwice(n);
  }

  lemma TwoDigits(n: nat)
    requires n < 100
    ensures Digits(n, 10) == if n < 10 then [n] else [n / 10, n % 10]
  {
    if n >= 10 { assert Digits(n / 10, 10) == [n / 10]; }
  }

  // A 256-bit number has at most 78 decimal digits.
  lemma SeventyEightDigits(n: nat)
    requires n < TWO256
    ensures |Digits(n, 10)| <= 78
  {
    assert Pow(10, 2) == 10 * Pow(10, 1) && Pow(10, 1) == 10 * Pow(10, 0);
    assert Pow(10, 3) == 10 * Pow(10, 2);
    PowAdd(10, 3, 3);
    assert Pow(10, 7) == 10 * Pow(10, 6);
    PowAdd(10, 6, 7);
    PowAdd(10, 13, 13);
    PowAdd(10, 26, 13);
    PowAdd(10, 39, 39);
    DigitCount(n, 78, 10);
  }

  /** One round of the eager loop: four digits of n % 10000 in front of ds. */
  method CopyFour(buf: array<char>, curr: nat, rem: nat, ghost ds: seq<nat>)
    requires curr + 4 <= buf.Length && rem < 10000 && AreDigits(ds, 10) && Holds(buf[..], curr + 4, ds, 10)
    modifies buf
    ensures var more := [rem / 100 / 10, rem / 100 % 10] + ([rem % 100 / 10, rem % 100 % 10] + ds);
            AreDigits(more, 10) && Holds(buf[..], curr, more, 10)
  {
    hide Holds;
    CopyPair(buf, curr + 2, rem % 100, ds);
    CopyPair(buf, curr, rem / 100, [rem % 100 / 10, rem % 100 % 10] + ds);
  }

  /** The last one or two digits. */
  method CopyLast(buf: array<char>, end: nat, n: nat, ghost ds: seq<nat>) returns (curr: nat)
    requires 2 <= end <= buf.Length && n < 100 && AreDigits(ds, 10) && Holds(buf[..], end, ds, 10)
    modifies buf
    ensures Holds(buf[..], curr, Digits(n, 10) + ds, 10)
  {
    TwoDigits(n);
    if n < 10 {
      ghost var before := buf[..];
      curr := end - 1;
      DecimalChar(n);
      buf[curr] := '0' + n as char;
      forall i | 0 <= i < |ds|
        ensures buf[..][end + i] == DigitChar(ds[i])
      {
        assert buf[..][end + i] == before[end + i];
      }
    } else {
      curr := end - 2;
      CopyPair(buf, curr, n, ds);
    }
  }

  // Prepending digits to the right part keeps the whole.
  lemma Regroup(whole: seq<nat>, left: seq<nat>, mid: seq<nat>, right: seq<nat>)
    requires whole == (left + mid) + right
    ensures whole == left + (mid + right)
  {}

  lemma HeldText(buf: seq<char>, curr: nat, n: nat, b: nat)
    requires 2 <= b <= 16 && Holds(buf, curr, Digits(n, b), b)
    ensures buf[curr..] == Print(n, b) && IsCanonical(buf[curr..], b)
  {
    forall i | 0 <= i < |buf| - curr
      ensures buf[curr..][i] == Print(n, b)[i]
    {}
    PrintIsCanonical(n, b);
  }

  /** fmt_u256: four digits per division, then two, then the last one or two. The text is the
      canonical decimal form and at least one of the 79 bytes stays unused. */
  method FormatDecimal(n0: nat) returns (text: string)
    requires n0 < TWO256
    ensures text == Print(n0, 10) && IsCanonical(text, 10) && |text| <= 78
  {
    SeventyEightDigits(n0);
    var buf := new char[79];
    var n: nat, curr: nat := n0, 79;
    ghost var ds: seq<nat> := [];
    assert Holds(buf[..], curr, ds, 10) && Digits(n0, 10) == Digits(n, 10) + ds;
    hide Holds, Digits, IsCanonical;
    while n >= 10000
      invariant Digits(n0, 10) == Digits(n, 10) + ds && |ds| == 79 - curr && 2 <= curr
      invariant AreDigits(ds, 10) && Holds(buf[..], curr, ds, 10)
    {
      FourDigits(n);
      var rem := n % 10000;
      ghost var four := [rem / 100 / 10, rem / 100 % 10] + [rem % 100 / 10, rem % 100 % 10];
      Regroup(Digits(n0, 10), Digits(n / 10000, 10), four, ds);
      assert four + ds == [rem / 100 / 10, rem / 100 % 10] + ([rem % 100 / 10, rem % 100 % 10] + ds);
      assert |four + ds| < 78;
      CopyFour(buf, curr - 4, rem, ds);
      n := n / 10000;
      curr := curr - 4;
      ds := four + ds;
    }
    if n >= 100 {
      PairOfDigits(n);
      ghost var two := [n % 100 / 10, n % 100 % 10];
      Regroup(Digits(n0, 10), Digits(n / 100, 10), two, ds);
      assert |two + ds| < 78;
      CopyPair(buf, curr - 2, n % 100, ds);
      n := n / 100;
      curr := curr - 2;
      ds := two + ds;
    }
    assert |ds| < 78;
    curr := CopyLast(buf, curr, n, ds);
    HeldText(buf[..], curr, n0, 10);
    text := buf[curr..];
  }

  /** GenericRadix::fmt_u256 for the binary, octal and lower-case hexadecimal radices. */
  method FormatRadix(n0: nat, base: nat) returns (text: string)
    requires n0 < TWO256 && (base == 2 || base == 8 || base == 16)
    ensures text == Print(n0, base) && IsCanonical(text, base) && |text| <= 256
  {
    hide Digits, DigitChar, IsCanonical, Holds, Print;
    DigitsFit(n0, base);
    var x: nat, curr: nat := n0, 256;
    var buf := new char[256];
    ghost var ds: seq<nat> := [];
    NothingHeld(buf[..], base);
    assert Digits(n0, base) + [] == Digits(n0, base);
    var more := true;
    while more
      invariant Digits(n0, base) == if more then Digits(x, base) + ds else ds
      invariant AreDigits(ds, base) && curr + |ds| == 256 && Holds(buf[..], curr, ds, base)
      decreases more, curr
    {
      var rest, n := NextDigit(x, base);
      if rest != 0 { Regroup(Digits(n0, base), Digits(rest, base), [n], ds); }
      curr := curr - 1;
      PutDigit(buf, curr, n, base, ds);
      x := rest;
      ds := [n] + ds;
      more := x != 0;
    }
    HeldText(buf[..], curr, n0, base);
    text := buf[curr..];
  }

  method NextDigit(x: nat, base: nat) returns (rest: nat, n: nat)
    requires base >= 2
    ensures n < base && Digits(x, base) == if rest == 0 then [n] else Digits(rest, base) + [n]
  {
    DivSmallerOrZero(x, base);
    rest, n := x / base, x % base;
  }

  lemma NothingHeld(buf: seq<char>, base: nat)
    requires base <= 16
    ensures AreDigits([], base) && Holds(buf, |buf|, [], base)
  {}

  method PutDigit(buf: array<char>, curr: nat, d: nat, base: nat, ghost ds: seq<nat>)
    requires curr < buf.Length && d < base <= 16 && AreDigits(ds, base) && Holds(buf[..], curr + 1, ds, base)
    modifies buf
    ensures AreDigits([d] + ds, base) && Holds(buf[..], curr, [d] + ds, base)
  {
    ghost var before := buf[..];
    buf[curr] := DigitChar(d);
    forall i | 0 <= i < |ds|
      ensures buf[..][curr + 1 + i] == DigitChar(ds[i])
    {
      assert buf[..][curr + 1 + i] == before[curr + 1 + i];
    }
  }

  lemma DivSmallerOrZero(x: nat, base: nat)
    requires base >= 2
    ensures x < base ==> x / base == 0 && x % base == x && Digits(x, base) == [x]
    ensures x >= base ==> x / base > 0 && Digits(x, base) == Digits(x / base, base) + [x % base]
  {
    if x < base {
      RemainderUnique(x, base, 0, x);
    } else {
      DivSmaller(x, base);
      QuotientBelow(x / base, x % base, base, 1);
    }
  }

  lemma DigitsFit(n: nat, base: nat)
    requires n < TWO256 && (base == 2 || base == 8 || base == 16)
    ensures |Digits(n, base)| <= 256
  {
    HexPowers();
    if base == 16 {
      DigitCount(n, 64, 16);
    } else if base == 2 {
      BinaryPower();
      DigitCount(n, 256, 2);
    } else {
      OctalPower();
      DigitCount(n, 86, 8);
    }
  }

  lemma BinaryPower()
    ensures Pow(2, 256) == TWO256
  {
    HexPowers();
    assert Pow(2, 4) == 2 * Pow(2, 3) && Pow(2, 3) == 2 * Pow(2, 2) && Pow(2, 2) == 2 * Pow(2, 1) && Pow(2, 1) == 2 * Pow(2, 0);
    PowMul(2, 4, 64);
  }

  lemma OctalPower()
    ensures Pow(8, 86) > TWO256
  {
    BinaryPower();
    assert Pow(2, 3) == 2 * Pow(2, 2) && Pow(2, 2) == 2 * Pow(2, 1) && Pow(2, 1) == 2 * Pow(2, 0);
    PowMul(2, 3, 86);
    hide Pow;
    PowAdd(2, 256, 2);
  }

  // ----- parsing -----

  datatype ParseResult = Parsed(value: nat) | Empty | InvalidDigit | PosOverflow

  // char::to_digit for radix up to 36: 36 or more when c is no digit at all.
  function ToDigit(c: char): nat {
    if '0' <= c <= '9' then (c - '0') as nat
    else if 'a' <= c <= 'z' then (c - 'a') as nat + 10
    else if 'A' <= c <= 'Z' then (c - 'A') as nat + 10
    else 36
  }

  predicate ValidDigits(s: string, radix: nat) {
    forall i :: 0 <= i < |s| ==> ToDigit(s[i]) < radix
  }

  function DigitValues(s: string): (ds: seq<nat>)
    ensures |ds| == |s| && forall i :: 0 <= i < |s| ==> ds[i] == ToDigit(s[i])
  {
    if s == "" then [] else
      var n := |s| - 1;
      DigitValues(s[..n]) + [ToDigit(s[n])]
  }

  // What the first n characters parse to: the first fault from the left, else their number.
  function ScanDigits(s: string, radix: nat, n: nat): (r: ParseResult)
    requires n <= |s|
    ensures !r.Empty?
  {
    if n == 0 then Parsed(0) else
      var prev := ScanDigits(s, radix, n - 1);
      if !prev.Parsed? then prev
      else if ToDigit(s[n - 1]) >= radix then InvalidDigit
      else
        MulMonotone(0, prev.value, radix);
        if prev.value * radix + ToDigit(s[n - 1]) >= TWO256 then PosOverflow
        else Parsed(prev.value * radix + ToDigit(s[n - 1]))
  }

  lemma {:induction false} ScanFaultStays(s: string, radix: nat, m: nat, n: nat)
    requires m <= n <= |s| && !ScanDigits(s, radix, m).Parsed?
    ensures ScanDigits(s, radix, n) == ScanDigits(s, radix, m)
  {
    if m < n { ScanFaultStays(s, radix, m, n - 1); }
  }

  /** A digit string parses exactly when all its characters are digits of the radix and its
      value fits in 256 bits, and then to that value. */
  lemma {:induction false} ScanIsValue(s: string, radix: nat, n: nat)
    requires radix >= 2 && n <= |s|
    ensures ScanDigits(s, radix, n).Parsed? <==> ValidDigits(s[..n], radix) && Value(DigitValues(s[..n]), radix) < TWO256
    ensures ScanDigits(s, radix, n).Parsed? ==> ScanDigits(s, radix, n) == Parsed(Value(DigitValues(s[..n]), radix))
  {
    if n != 0 {
      ScanIsValue(s, radix, n - 1);
      ScanValueStep(s, radix, n - 1);
    }
  }

  // One more digit, on the side of the value.
  lemma ScanValueStep(s: string, radix: nat, i: nat)
    requires radix >= 2 && i < |s|
    ensures ValidDigits(s[..i + 1], radix) <==> ValidDigits(s[..i], radix) && ToDigit(s[i]) < radix
    ensures var v := Value(DigitValues(s[..i]), radix);
            Value(DigitValues(s[..i + 1]), radix) == v * radix + ToDigit(s[i]) >= v
  {
    hide ToDigit, DigitValues, Value;
    DigitValuesSnoc(s, i);
    ValueSnoc(DigitValues(s[..i]), ToDigit(s[i]), radix);
    MulMonotone(1, radix, Value(DigitValues(s[..i]), radix));
    assert s[..i + 1] == s[..i] + [s[i]];
  }

  // Character m is the first fault, and is not a digit.
  ghost predicate FaultAt(s: string, radix: nat, m: nat) {
    m < |s| && ToDigit(s[m]) >= radix && ValidDigits(s[..m], radix) && Value(DigitValues(s[..m]), radix) < TWO256
  }

  // The fault reported is the first from the left: a character that is no digit, or a number too large by then.
  lemma {:induction false} FirstFault(s: string, radix: nat, n: nat)
    requires radix >= 2 && n <= |s|
    ensures ScanDigits(s, radix, n) == InvalidDigit <==> exists m: nat :: m < n && FaultAt(s, radix, m)
  {
    hide ToDigit, DigitValues, Value, ValidDigits;
    if n > 0 {
      FirstFault(s, radix, n - 1);
      ScanIsValue(s, radix, n - 1);
      if ScanDigits(s, radix, n - 1).Parsed? && ToDigit(s[n - 1]) >= radix {
        assert FaultAt(s, radix, n - 1);
      }
    }
  }

  // can_not_overflow for an unsigned 256-bit type.
  predicate CanNotOverflow(radix: nat, digits: string) {
    radix <= 16 && |digits| <= 64
  }

  /** The fast path's guard is sound: no prefix of such a string exceeds 256 bits. */
  lemma GuardIsSound(s: string, radix: nat, n: nat)
    requires 2 <= radix && CanNotOverflow(radix, s) && n <= |s| && ValidDigits(s[..n], radix)
    ensures Value(DigitValues(s[..n]), radix) < Pow(16, n) <= TWO256
  {
    hide ToDigit, Value;
    ValueBound(DigitValues(s[..n]), radix);
    PowBaseMonotone(radix, 16, n);
    HexPowerBelow(n);
  }

  lemma HexPowerBelow(n: nat)
    requires n <= 64
    ensures Pow(16, n) <= TWO256
  {
    hide Pow;
    HexPowers();
    PowAdd(16, n, 64 - n);
    PowPositive(16, 64 - n);
    PowPositive(16, n);
    MulMonotone(1, Pow(16, 64 - n), Pow(16, n));
  }

  lemma {:induction false} PowBaseMonotone(a: nat, b: nat, e: nat)
    requires a <= b
    ensures 0 <= Pow(a, e) <= Pow(b, e)
  {
    if e != 0 {
      PowBaseMonotone(a, b, e - 1);
      MulMonotone(a, b, Pow(a, e - 1));
      MulMonotone(Pow(a, e - 1), Pow(b, e - 1), b);
      MulMonotone(0, a, Pow(a, e - 1));
    }
  }

  type u256 = x: nat | x < TWO256

  /** The unchecked loop: under the guard neither the product nor the sum leaves 256 bits, and
      the outcome is the checked loop's. */
  method ParseUnchecked(digits: string, radix: nat) returns (r: ParseResult)
    requires 2 <= radix && CanNotOverflow(radix, digits)
    ensures r == ScanDigits(digits, radix, |digits|)
  {
    hide ToDigit, DigitValues;
    var result: u256 := 0;
    for i := 0 to |digits|
      invariant ScanDigits(digits, radix, i) == Parsed(result)
    {
      UncheckedStep(digits, radix, i, result);
      var product: u256 := result * radix;
      var x := ToDigit(digits[i]);
      if x >= radix {
        ScanFaultStays(digits, radix, i + 1, |digits|);
        return InvalidDigit;
      }
      var sum: u256 := product + x;
      result := sum;
    }
    return Parsed(result);
  }

  lemma UncheckedStep(s: string, radix: nat, i: nat, v: nat)
    requires 2 <= radix && CanNotOverflow(radix, s) && i < |s| && ScanDigits(s, radix, i) == Parsed(v)
    ensures 0 <= v * radix < TWO256
    ensures ToDigit(s[i]) < radix ==> v * radix + ToDigit(s[i]) < TWO256
  {
    hide ToDigit, DigitValues, Value;
    ScanIsValue(s, radix, i);
    GuardIsSound(s, radix, i);
    ProductFits(v, radix, i);
    if ToDigit(s[i]) < radix {
      ScanValueStep(s, radix, i);
      GuardIsSound(s, radix, i + 1);
    }
  }

  lemma ProductFits(v: nat, radix: nat, i: nat)
    requires radix <= 16 && i < 64 && v < Pow(16, i)
    ensures 0 <= v * radix < TWO256
  {
    assert Pow(16, i + 1) == 16 * Pow(16, i);
    hide Pow;
    MulMonotone(0, v, radix);
    MulMonotone(radix, 16, v);
    HexPowerBelow(i + 1);
  }

  lemma DigitValuesSnoc(s: string, i: nat)
    requires i < |s|
    ensures DigitValues(s[..i + 1]) == DigitValues(s[..i]) + [ToDigit(s[i])]
  {
    assert s[..i + 1][..i] == s[..i];
  }

  /** The checked loop: the product is checked first but reported only after the digit. */
  method ParseChecked(digits: string, radix: nat) returns (r: ParseResult)
    requires 2 <= radix
    ensures r == ScanDigits(digits, radix, |digits|)
  {
    hide ToDigit;
    var result: u256 := 0;
    for i := 0 to |digits|
      invariant ScanDigits(digits, radix, i) == Parsed(result)
    {
      MulMonotone(0, result, radix);
      var mul := if result * radix < TWO256 then Some(result * radix) else None;
      var x := ToDigit(digits[i]);
      if x >= radix {
        ScanFaultStays(digits, radix, i + 1, |digits|);
        return InvalidDigit;
      }
      if mul.None? {
        ScanFaultStays(digits, radix, i + 1, |digits|);
        return PosOverflow;
      }
      if mul.value + x >= TWO256 {
        ScanFaultStays(digits, radix, i + 1, |digits|);
        return PosOverflow;
      }
      result := mul.value + x;
    }
    return Parsed(result);
  }

  function Unprefixed(s: string, prefix: Option<string>): Option<string> {
    match prefix
    case None => Some(s)
    case Some(p) => if p <= s then Some(s[|p|..]) else None
  }

  // from_str_radix for U256: sign, prefix, digits.
  function FromStrRadixSpec(src: string, radix: nat, prefix: Option<string>): ParseResult {
    if src == "" then Empty
    else if (src[0] == '+' || src[0] == '-') && |src| == 1 then InvalidDigit
    else
      match Unprefixed(if src[0] == '+' then src[1..] else src, prefix)
      case None => InvalidDigit
      case Some(digits) => if digits == "" then InvalidDigit else ScanDigits(digits, radix, |digits|)
  }

  /** from_str_radix for U256, where a leading minus is an ordinary character. */
  method FromStrRadix(src: string, radix: nat, prefix: Option<string>) returns (r: ParseResult)
    requires 2 <= radix <= 36
    ensures r == FromStrRadixSpec(src, radix, prefix)
  {
    if src == "" { return Empty; }
    if (src[0] == '+' || src[0] == '-') && src[1..] == "" { return InvalidDigit; }
    var prefixedDigits := if src[0] == '+' then src[1..] else src;
    var digits := Unprefixed(prefixedDigits, prefix);
    if digits.None? { return InvalidDigit; }
    if digits.value == "" { return InvalidDigit; }
    if CanNotOverflow(radix, digits.value) {
      r := ParseUnchecked(digits.value, radix);
    } else {
      r := ParseChecked(digits.value, radix);
    }
  }

  function Unsigned(src: string): string {
    if src != "" && src[0] == '+' then src[1..] else src
  }

  // The text is an optional plus sign, the prefix if one is asked for, and these digits, at least one.
  ghost predicate Spells(src: string, prefix: Option<string>, digits: string) {
    digits != "" && Unsigned(src) == (if prefix.Some? then prefix.value else "") + digits
  }

  lemma SpellsOnce(src: string, prefix: Option<string>, a: string, b: string)
    requires Spells(src, prefix, a) && Spells(src, prefix, b)
    ensures a == b
  {
    var p := if prefix.Some? then prefix.value else "";
    assert a == (p + a)[|p|..] && b == (p + b)[|p|..];
  }

  lemma UnprefixedSpells(src: string, prefix: Option<string>, digits: string)
    ensures Spells(src, prefix, digits) <==> digits != "" && Unprefixed(Unsigned(src), prefix) == Some(digits)
  {
    var p, s := if prefix.Some? then prefix.value else "", Unsigned(src);
    if s == p + digits {
      assert p <= s && s[|p|..] == digits;
    }
    if p <= s {
      assert s == p + s[|p|..];
    }
  }

  lemma MinusIsNoDigit(radix: nat)
    requires radix <= 36
    ensures !ValidDigits("-", radix)
  {
    assert ToDigit("-"[0]) >= radix;
  }

  /** Exactly the texts of a sign, the prefix and digits of a number below 2^256 parse, to that number; exactly the
      empty text is reported as empty. */
  lemma FromStrRadixLaw(src: string, radix: nat, prefix: Option<string>, digits: string)
    requires 2 <= radix <= 36
    ensures var r := FromStrRadixSpec(src, radix, prefix);
            && (r == Empty <==> src == "")
            && (r.Parsed? ==> exists ds :: Spells(src, prefix, ds))
            && (Spells(src, prefix, digits) ==>
                  && (r.Parsed? <==> ValidDigits(digits, radix) && Value(DigitValues(digits), radix) < TWO256)
                  && (r.Parsed? ==> r.value == Value(DigitValues(digits), radix)))
  {
    var r := FromStrRadixSpec(src, radix, prefix);
    if src != "" {
      assert Unsigned(src) == if src[0] == '+' then src[1..] else src;
    }
    var rest := Unprefixed(Unsigned(src), prefix);
    UnprefixedSpells(src, prefix, digits);
    if rest.Some? {
      UnprefixedSpells(src, prefix, rest.value);
      ScanIsValue(rest.value, radix, |rest.value|);
      assert rest.value[..|rest.value|] == rest.value;
    }
    if Spells(src, prefix, digits) && src == "-" {
      assert digits == "-" by { MinusWhole(prefix, digits); }
      MinusIsNoDigit(radix);
    }
    hide ToDigit, DigitValues, Value, ValidDigits, ScanDigits, Unprefixed, Spells;
  }

  lemma MinusWhole(prefix: Option<string>, digits: string)
    requires Spells("-", prefix, digits)
    ensures digits == "-"
  {}

  // The digits of a printed number read back as themselves.
  lemma PrintedDigits(n: nat, base: nat)
    requires 2 <= base <= 16
    ensures ValidDigits(Print(n, base), base) && DigitValues(Print(n, base)) == Digits(n, base)
    ensures Print(n, base)[0] != '+' && Print(n, base)[0] != '-'
  {
    var s, ds := Print(n, base), Digits(n, base);
    forall i | 0 <= i < |s|
      ensures ToDigit(s[i]) == ds[i] && s[i] != '+' && s[i] != '-'
    {
      DigitOfChar(ds[i]);
    }
  }

  lemma DigitOfChar(d: nat)
    requires d < 16
    ensures ToDigit(DigitChar(d)) == d && DigitChar(d) != '+' && DigitChar(d) != '-'
  {
    if d < 8 {} else {}
  }

  /** The round trip: every 256-bit number, printed in base 10 (or 2, 8, 16), parses back to
      itself, on whichever of the two loops its length selects. */
  lemma ParsePrinted(n: nat, base: nat)
    requires n < TWO256 && 2 <= base <= 16
    ensures FromStrRadixSpec(Print(n, base), base, None) == Parsed(n)
  {
    hide Print, Digits, ToDigit, DigitValues, Value;
    var s := Print(n, base);
    PrintedDigits(n, base);
    ValueDigits(n, base);
    ScanIsValue(s, base, |s|);
    assert s[..|s|] == s;
  }

  /** The same with a radix prefix and an optional plus sign. */
  lemma ParsePrefixed(n: nat, base: nat, p: string)
    requires n < TWO256 && 2 <= base <= 16 && p != "" && p[0] != '+' && p[0] != '-'
    ensures FromStrRadixSpec(p + Print(n, base), base, Some(p)) == Parsed(n)
    ensures FromStrRadixSpec("+" + (p + Print(n, base)), base, Some(p)) == Parsed(n)
  {
    hide Print, Digits, ToDigit, DigitValues, Value;
    var s := Print(n, base);
    PrintedDigits(n, base);
    ValueDigits(n, base);
    ScanIsValue(s, base, |s|);
    assert s[..|s|] == s;
    assert (p + s)[|p|..] == s && p <= p + s;
    assert ("+" + (p + s))[1..] == p + s;
  }
}

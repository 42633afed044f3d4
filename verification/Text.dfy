/** The textual encodings of the TypeScript services: BigInt literals, toString, padStart, split. */
module Text {
  import opened Numbers
  import opened Radix

  datatype Option<+T> = None | Some(value: T)

  const HEX: string := "0123456789abcdef"

  function DigitChar(d: nat): (c: char)
    requires d < 16
  {
    HEX[d]
  }

  // The value of a digit character in base b <= 16, in either case; b or more when it is none.
  function CharDigit(c: char): (d: nat) {
    if '0' <= c <= '9' then (c - '0') as nat
    else if 'a' <= c <= 'f' then (c - 'a') as nat + 10
    else if 'A' <= c <= 'F' then (c - 'A') as nat + 10
    else 16
  }

  lemma CharOfDigit(d: nat)
    requires d < 16
    ensures CharDigit(DigitChar(d)) == d
    ensures DigitChar(d) != '-' && DigitChar(d) != 'v' && !('A' <= DigitChar(d) <= 'F')
  {}

  predicate AreChars(s: string, b: nat) {
    forall i :: 0 <= i < |s| ==> CharDigit(s[i]) < b
  }

  predicate IsLower(s: string) {
    forall i :: 0 <= i < |s| ==> !('A' <= s[i] <= 'F')
  }

  function Chars(ds: seq<nat>): (s: string)
    requires AreDigits(ds, 16)
    ensures |s| == |ds| && forall i :: 0 <= i < |ds| ==> s[i] == DigitChar(ds[i])
  {
    seq(|ds|, i requires 0 <= i < |ds| => DigitChar(ds[i]))
  }

  function DigitsOf(s: string): (ds: seq<nat>)
    ensures |ds| == |s| && forall i :: 0 <= i < |s| ==> ds[i] == CharDigit(s[i])
  {
    seq(|s|, i requires 0 <= i < |s| => CharDigit(s[i]))
  }

  // n.toString(b)
  function Print(n: nat, b: nat): (s: string)
    requires 2 <= b <= 16
    ensures |s| == |Digits(n, b)| && s != ""
  {
    Chars(Digits(n, b))
  }

  // s.padStart(len, "0")
  function PadStart(s: string, len: nat): (p: string)
    ensures |p| == if |s| >= len then |s| else len
  {
    if |s| >= len then s else seq(len - |s|, _ => '0') + s
  }

  // BigInt of a digit string in base b, which is a syntax error unless it is one.
  function Parse(s: string, b: nat): (n: Option<nat>)
    requires 2 <= b <= 16
  {
    if s != "" && AreChars(s, b) then Some(Value(DigitsOf(s), b)) else None
  }

  // A hexadecimal string without its optional 0x.
  function CleanHex(secretHex: string): string {
    if "0x" <= secretHex then secretHex[2..] else secretHex
  }

  // s.slice(i, j) for i <= j, which clips at the end of s.
  function SliceTo(s: string, i: nat, j: nat): string
    requires i <= j
  {
    if i >= |s| then "" else if j >= |s| then s[i..] else s[i..j]
  }

  // What is printed and padded: digit characters only, in lower case, nothing else.
  lemma PaddedChars(s: string, len: nat, b: nat)
    requires 2 <= b <= 16 && AreChars(s, b) && IsLower(s)
    ensures AreChars(PadStart(s, len), b) && IsLower(PadStart(s, len))
    ensures Value(DigitsOf(PadStart(s, len)), b) == Value(DigitsOf(s), b)
  {
    if |s| < len {
      var k := len - |s|;
      var p := PadStart(s, len);
      forall i | 0 <= i < |p|
        ensures CharDigit(p[i]) < b && !('A' <= p[i] <= 'F')
      {
        assert i >= k ==> p[i] == s[i - k];
      }
      assert DigitsOf(PadStart(s, len)) == Zeros(k) + DigitsOf(s);
      ValueZeros(k, DigitsOf(s), b);
    }
  }

  lemma PrintChars(n: nat, b: nat)
    requires 2 <= b <= 16
    ensures AreChars(Print(n, b), b) && IsLower(Print(n, b))
    ensures DigitsOf(Print(n, b)) == Digits(n, b)
  {
    var ds := Digits(n, b);
    forall i | 0 <= i < |ds|
      ensures CharDigit(Print(n, b)[i]) == ds[i] && !('A' <= Print(n, b)[i] <= 'F')
    {
      CharOfDigit(ds[i]);
    }
  }

  // Lower-case digits, with no leading zero except in "0" itself.
  ghost predicate IsCanonical(s: string, b: nat) {
    s != "" && AreChars(s, b) && IsLower(s) && (s[0] == '0' ==> |s| == 1)
  }

  lemma PrintIsCanonical(n: nat, b: nat)
    requires 2 <= b <= 16
    ensures IsCanonical(Print(n, b), b)
  {
    PrintChars(n, b);
    if n > 0 {
      DigitsNoLeadingZero(n, b);
      CharOfDigit(Digits(n, b)[0]);
    } else {
      assert Digits(0, b) == [0];
    }
  }

  // No other canonical text has the same value.
  lemma CanonicalIsPrint(s: string, b: nat)
    requires 2 <= b <= 16 && IsCanonical(s, b)
    ensures s == Print(Value(DigitsOf(s), b), b)
  {
    CanonicalDigits(DigitsOf(s), b);
    CharsOfDigits(s);
    hide Digits, Value;
  }

  /** Reading back a printed and zero-padded number. */
  lemma ParsePrint(n: nat, len: nat, b: nat)
    requires 2 <= b <= 16
    ensures var s := PadStart(Print(n, b), len);
            s != "" && AreChars(s, b) && IsLower(s) && Parse(s, b) == Some(n)
  {
    PrintChars(n, b);
    PaddedChars(Print(n, b), len, b);
    ValueDigits(n, b);
  }

  lemma PadStartShape(ds: seq<nat>, len: nat)
    requires AreDigits(ds, 16)
    ensures AreDigits(Pad(ds, len), 16)
    ensures PadStart(Chars(ds), len) == Chars(Pad(ds, len))
  {
    assert DigitChar(0) == '0';
  }

  /** Printing back what was read, padded to its own length: exact for lower case, leading
      zeros included. */
  lemma PrintParse(s: string)
    requires Parse(s, 16).Some?
    ensures var p := PadStart(Print(Parse(s, 16).value, 16), |s|);
            p == s <==> IsLower(s)
  {
    var n := Parse(s, 16).value;
    PrintChars(n, 16);
    PaddedChars(Print(n, 16), |s|, 16);
    if IsLower(s) { PrintParseLower(s); }
  }

  lemma PrintParseLower(s: string)
    requires Parse(s, 16).Some? && IsLower(s)
    ensures PadStart(Print(Parse(s, 16).value, 16), |s|) == s
  {
    var ds := DigitsOf(s);
    PadDigitsValue(ds, 16);
    PadStartShape(Digits(Value(ds, 16), 16), |s|);
    CharsOfDigits(s);
  }

  lemma CharsOfDigits(s: string)
    requires AreChars(s, 16) && IsLower(s)
    ensures Chars(DigitsOf(s)) == s
  {
    forall i | 0 <= i < |s|
      ensures DigitChar(CharDigit(s[i])) == s[i]
    {
      assert CharDigit(s[i]) < 16 && !('A' <= s[i] <= 'F');
    }
  }

  // 64 hexadecimal digits hold 256 bits.
  lemma HexPowers()
    ensures Pow(16, 64) == 0x1_0000000000000000_0000000000000000_0000000000000000_0000000000000000
    ensures Pow(256, 32) == Pow(16, 64) && Pow(16, 65) == 16 * Pow(16, 64)
  {
    assert Pow(16, 2) == 16 * Pow(16, 1) && Pow(16, 1) == 16 * Pow(16, 0);
    PowAdd(16, 2, 2);
    PowAdd(16, 4, 4);
    PowAdd(16, 8, 8);
    PowAdd(16, 16, 16);
    PowAdd(16, 32, 32);
    PowMul(16, 2, 32);
  }

  // ----- s.split("-") -----

  function SplitOnDash(s: string): (parts: seq<string>)
    ensures |parts| >= 1
  {
    if s == "" then [""]
    else if s[0] == '-' then [""] + SplitOnDash(s[1..])
    else
      var rest := SplitOnDash(s[1..]);
      [[s[0]] + rest[0]] + rest[1..]
  }

  predicate NoDash(s: string) {
    forall i :: 0 <= i < |s| ==> s[i] != '-'
  }

  lemma {:induction false} SplitNoDash(s: string)
    requires NoDash(s)
    ensures SplitOnDash(s) == [s]
  {
    if s != "" { SplitNoDash(s[1..]); assert [s[0]] + s[1..] == s; }
  }

  lemma {:induction false} SplitPair(a: string, b: string)
    requires NoDash(a) && NoDash(b)
    ensures SplitOnDash(a + "-" + b) == [a, b]
  {
    var s := a + "-" + b;
    if a == "" {
      assert s[1..] == b;
      SplitNoDash(b);
    } else {
      SplitPair(a[1..], b);
      assert s[1..] == a[1..] + "-" + b;
      assert [a[0]] + a[1..] == a;
    }
  }

  lemma {:induction false} SplitOne(s: string)
    requires |SplitOnDash(s)| == 1
    ensures NoDash(s) && SplitOnDash(s) == [s]
  {
    if s != "" {
      assert s[0] != '-';
      SplitOne(s[1..]);
      assert [s[0]] + s[1..] == s;
    }
  }

  lemma {:induction false} SplitTwo(s: string)
    requires |SplitOnDash(s)| == 2
    ensures var parts := SplitOnDash(s);
            NoDash(parts[0]) && NoDash(parts[1]) && s == parts[0] + "-" + parts[1]
  {
    assert s != "";
    if s[0] == '-' {
      SplitOne(s[1..]);
      assert s == [s[0]] + s[1..];
    } else {
      SplitTwo(s[1..]);
      assert s == [s[0]] + s[1..];
    }
  }
}

/** The contract's byte-level homomorphic addition (lib.rs) against the client's fheAdd. */
module FheOnChain {
  import opened Numbers
  import opened Polynomials
  import opened Radix
  import opened Text
  import opened Limbs
  import opened Fhe
  import opened FheShares
  import opened FheWire

  const Q_LIMBS: seq<nat> := [0xFFFF_FFFE_FFFF_FC2F, 0xFFFF_FFFF_FFFF_FFFF, 0xFFFF_FFFF_FFFF_FFFF, 0xFFFF_FFFF_FFFF_FFFF]

  lemma LimbConstants()
    ensures Pow(W, 4) == TWO256 && LimbValue(Q_LIMBS, 4) == FHE_PRIME && AreLimbs(Q_LIMBS)
    ensures Pow(256, 8) == W && Pow(256, 32) == TWO256
  {
    assert Pow(W, 1) == W && Pow(W, 2) == W * W && Pow(W, 3) == W * (W * W) && Pow(W, 4) == W * (W * (W * W));
    assert LimbValue(Q_LIMBS, 1) == Q_LIMBS[0] * Pow(W, 0);
    assert LimbValue(Q_LIMBS, 2) == LimbValue(Q_LIMBS, 1) + Q_LIMBS[1] * Pow(W, 1);
    assert LimbValue(Q_LIMBS, 3) == LimbValue(Q_LIMBS, 2) + Q_LIMBS[2] * Pow(W, 2);
    assert LimbValue(Q_LIMBS, 4) == LimbValue(Q_LIMBS, 3) + Q_LIMBS[3] * Pow(W, 3);
    BytePowers();
    PowMul(256, 8, 4);
  }

  predicate IsWord(w: seq<nat>) {
    |w| == 32 && forall i :: 0 <= i < 32 ==> w[i] < 256
  }

  // The 32 big-endian bytes of v.
  function WordBytes(v: nat): (w: seq<nat>) {
    Pad(Digits(v, 256), 32)
  }

  lemma WordBytesValue(v: nat)
    requires v < TWO256
    ensures IsWord(WordBytes(v)) && Value(WordBytes(v), 256) == v
  {
    LimbConstants();
    DigitCount(v, 32, 256);
    ValueDigits(v, 256);
    ValuePad(Digits(v, 256), 32, 256);
  }

  // A word is the big-endian bytes of its value.
  lemma WordIsBytes(w: seq<nat>)
    requires IsWord(w)
    ensures w == WordBytes(Value(w, 256)) && Value(w, 256) < TWO256
  {
    LimbConstants();
    PadDigitsValue(w, 256);
    ValueBound(w, 256);
  }

  // Eight more bytes in front of a big-endian tail are one more limb.
  lemma PrependLimb(chunk: seq<nat>, tail: seq<nat>, i: nat, d: nat)
    requires |chunk| == 8 && |tail| == 8 * i && Value(chunk, 256) == d
    ensures Value(chunk + tail, 256) == d * Pow(W, i) + Value(tail, 256)
  {
    ValueConcat(chunk, tail, 256);
    LimbConstants();
    PowMul(256, 8, i);
  }

  // The value of the last i chunks of a word, and of the chunk at an index.
  function TailValue(w: seq<nat>, i: nat): nat
    requires IsWord(w) && i <= 4
  {
    Value(w[32 - 8 * i..], 256)
  }

  function ChunkValue(w: seq<nat>, idx: nat): nat
    requires IsWord(w) && idx + 8 <= 32
  {
    Value(w[idx..idx + 8], 256)
  }

  lemma TailEnds(w: seq<nat>)
    requires IsWord(w)
    ensures TailValue(w, 0) == 0 && TailValue(w, 4) == Value(w, 256)
  {
    assert w[32..] == [] && w[0..] == w;
  }

  // The limbs so far, with one more read or written, are worth the chunks so far.
  lemma TailStep(w: seq<nat>, i: nat)
    requires IsWord(w) && i < 4
    ensures ChunkValue(w, 24 - 8 * i) < W
    ensures TailValue(w, i + 1) == ChunkValue(w, 24 - 8 * i) * Pow(W, i) + TailValue(w, i)
  {
    var idx := 24 - 8 * i;
    var chunk := w[idx..idx + 8];
    LimbConstants();
    ValueBound(chunk, 256);
    hide Value, Pow;
    assert w[idx..] == chunk + w[idx + 8..];
    PrependLimb(chunk, w[idx + 8..], i, Value(chunk, 256));
  }

  lemma LimbSnoc(a: seq<nat>, d: nat, i: nat)
    requires |a| == i
    ensures LimbValue(a + [d], i + 1) == LimbValue(a, i) + d * Pow(W, i)
  {
    LimbPrefix(a, a + [d], i);
  }

  lemma NoLimbs(a: seq<nat>)
    ensures LimbValue(a, 0) == 0
  {}

  /** Reading the big-endian chunks of a word into limbs, least significant first. */
  method ReadLimbs(w: seq<nat>) returns (a: seq<nat>)
    requires IsWord(w)
    ensures |a| == 4 && AreLimbs(a) && LimbValue(a, 4) == Value(w, 256)
  {
    hide Value, LimbValue, TailValue, ChunkValue, Pow, IsWord;
    a := [];
    TailEnds(w);
    NoLimbs(a);
    for i := 0 to 4
      invariant |a| == i && AreLimbs(a)
      invariant LimbValue(a, i) == TailValue(w, i)
    {
      var d := ChunkValue(w, 24 - i * 8);
      TailStep(w, i);
      LimbSnoc(a, d, i);
      a := a + [d];
    }
  }

  lemma LimbChunk(d: nat)
    requires d < W
    ensures var chunk := Pad(Digits(d, 256), 8);
            |chunk| == 8 && (forall k :: 0 <= k < 8 ==> chunk[k] < 256) && Value(chunk, 256) == d
  {
    LimbConstants();
    DigitCount(d, 8, 256);
    ValueDigits(d, 256);
    ValuePad(Digits(d, 256), 8, 256);
  }

  method ZeroWord() returns (res: seq<nat>)
    ensures IsWord(res)
  {
    res := seq(32, _ => 0);
  }

  lemma OneLimb(sum: seq<nat>, i: nat)
    requires AreLimbs(sum) && i < |sum|
    ensures sum[i] < W
  {}

  /** Writing limbs back as big-endian chunks. */
  method WriteLimbs(sum: seq<nat>) returns (res: seq<nat>)
    requires |sum| == 4 && AreLimbs(sum)
    ensures IsWord(res) && Value(res, 256) == LimbValue(sum, 4)
  {
    hide *;
    res := ZeroWord();
    TailEnds(res);
    NoLimbs(sum);
    for i := 0 to 4
      invariant IsWord(res) && TailValue(res, i) == LimbValue(sum, i)
    {
      OneLimb(sum, i);
      res := PutLimb(res, i, sum[i]);
      LimbStep(sum, i);
    }
    TailEnds(res);
  }

  lemma LimbStep(sum: seq<nat>, i: nat)
    requires i < |sum|
    ensures LimbValue(sum, i + 1) == LimbValue(sum, i) + sum[i] * Pow(W, i)
  {}

  /** to_be_bytes and copy_from_slice for one limb. */
  method PutLimb(res: seq<nat>, i: nat, d: nat) returns (next: seq<nat>)
    requires IsWord(res) && i < 4 && d < W
    ensures IsWord(next) && TailValue(next, i + 1) == d * Pow(W, i) + TailValue(res, i)
  {
    var idx := 24 - i * 8;
    var chunk := Pad(Digits(d, 256), 8);
    LimbChunk(d);
    hide Value, Pow, Pad, Digits;
    next := PutChunk(res, idx, chunk);
    TailStep(next, i);
  }

  method PutChunk(res: seq<nat>, idx: nat, chunk: seq<nat>) returns (next: seq<nat>)
    requires IsWord(res) && idx + 8 <= 32 && |chunk| == 8 && forall k :: 0 <= k < 8 ==> chunk[k] < 256
    ensures IsWord(next) && next[idx..idx + 8] == chunk && next[idx + 8..] == res[idx + 8..]
  {
    next := res[..idx] + chunk + res[idx + 8..];
    forall k | 0 <= k < 32
      ensures next[k] < 256
    {
      if idx <= k < idx + 8 { assert next[k] == chunk[k - idx]; } else { assert next[k] == res[k]; }
    }
  }

  // What the limb adder computes: one conditional subtraction of q, in 256 bits.
  function WordSum(x: nat, y: nat): nat {
    if x + y >= FHE_PRIME then (x + y - FHE_PRIME) % TWO256 else x + y
  }

  /** The single subtraction reduces modulo q exactly when the sum is below 2q. */
  lemma WordSumExact(x: nat, y: nat)
    requires x < TWO256 && y < TWO256
    ensures WordSum(x, y) == (x + y) % FHE_PRIME <==> x + y < 2 * FHE_PRIME
  {
    var d := x + y - FHE_PRIME;
    if 0 <= d < FHE_PRIME {
      RemainderUnique(d, TWO256, 0, d);
      RemainderUnique(x + y, FHE_PRIME, 1, d);
    } else if d < 0 {
      RemainderUnique(x + y, FHE_PRIME, 0, x + y);
    } else {
      RemainderUnique(x + y, FHE_PRIME, 2, d - FHE_PRIME);
      if d < TWO256 { RemainderUnique(d, TWO256, 0, d); } else { RemainderUnique(d, TWO256, 1, d - TWO256); }
    }
  }

  /** add_mod_q_256. */
  method AddModQ256(w1: seq<nat>, w2: seq<nat>) returns (res: seq<nat>)
    requires IsWord(w1) && IsWord(w2)
    ensures IsWord(res) && Value(res, 256) == WordSum(Value(w1, 256), Value(w2, 256))
  {
    var a := ReadLimbs(w1);
    var b := ReadLimbs(w2);
    LimbConstants();
    ghost var total := LimbValue(a, 4) + LimbValue(b, 4);
    var sum, carry := AddLimbs(a, b);
    var geQ := carry > 0;
    if !geQ { geQ := AtLeast(sum, Q_LIMBS); }
    assert geQ <==> total >= FHE_PRIME;
    LimbBound(sum, 4);
    if geQ {
      var reduced, borrow := SubLimbs(sum, Q_LIMBS);
      LimbBound(reduced, 4);
      RemainderUnique(total - FHE_PRIME, TWO256, carry as int - borrow as int, LimbValue(reduced, 4));
      sum := reduced;
    }
    res := WriteLimbs(sum);
  }

  // ----- fhe_add on payloads -----

  datatype AddResult = Sum(bytes: seq<nat>) | Panic

  function WordAt(ct: seq<nat>, i: nat): seq<nat>
    requires 32 * i + 32 <= |ct|
  {
    ct[32 * i..32 * i + 32]
  }

  // The words from 1 up to n, added one by one; word 0 is copied from ct1.
  function AddWords(ct1: seq<nat>, ct2: seq<nat>, n: nat): (r: seq<nat>)
    requires 1 <= n && 32 * n <= |ct1| && 32 * n <= |ct2|
  {
    if n == 1 then WordAt(ct1, 0)
    else AddWords(ct1, ct2, n - 1) + WordBytes(WordSum(Value(WordAt(ct1, n - 1), 256), Value(WordAt(ct2, n - 1), 256)))
  }

  function FheAddBytes(ct1: seq<nat>, ct2: seq<nat>): AddResult {
    if ct1 == [] then Sum(ct2)
    else if ct2 == [] then Sum(ct1)
    else if |ct1| < 96 || |ct2| < 96 || |ct1| != |ct2| then Panic
    else Sum(AddWords(ct1, ct2, |ct1| / 32))
  }

  predicate AreBytes(b: seq<nat>) {
    forall i :: 0 <= i < |b| ==> b[i] < 256
  }

  /** fhe_add. */
  method FheAddOnChain(ct1: seq<nat>, ct2: seq<nat>) returns (r: AddResult)
    requires AreBytes(ct1) && AreBytes(ct2)
    ensures r == FheAddBytes(ct1, ct2)
  {
    if |ct1| == 0 { return Sum(ct2); }
    if |ct2| == 0 { return Sum(ct1); }
    if |ct1| < 96 || |ct2| < 96 { return Panic; }
    if |ct1| != |ct2| { return Panic; }
    var wordCount := |ct1| / 32;
    var result := ct1[0..32];
    for i := 1 to wordCount
      invariant result == AddWords(ct1, ct2, i)
    {
      var w1, w2 := WordAt(ct1, i), WordAt(ct2, i);
      var sum := AddModQ256(w1, w2);
      WordIsBytes(sum);
      result := result + sum;
    }
    return Sum(result);
  }

  // Word i of a sum of payloads: the dimension's word is kept, every other is added.
  ghost predicate IsSumWord(ct1: seq<nat>, ct2: seq<nat>, r: seq<nat>, i: nat)
    requires 32 * i + 32 <= |ct1| && 32 * i + 32 <= |ct2| && 32 * i + 32 <= |r|
  {
    if i == 0 then WordAt(r, 0) == WordAt(ct1, 0)
    else IsWord(WordAt(r, i)) && Value(WordAt(r, i), 256) == WordSum(Value(WordAt(ct1, i), 256), Value(WordAt(ct2, i), 256))
  }

  lemma WordOfBytes(ct: seq<nat>, i: nat)
    requires AreBytes(ct) && 32 * i + 32 <= |ct|
    ensures IsWord(WordAt(ct, i)) && Value(WordAt(ct, i), 256) < TWO256
  {
    hide WordBytes;
    WordIsBytes(WordAt(ct, i));
  }

  lemma SumIsWord(x: nat, y: nat)
    requires x < TWO256 && y < TWO256
    ensures IsWord(WordBytes(WordSum(x, y))) && Value(WordBytes(WordSum(x, y)), 256) == WordSum(x, y)
  {
    hide WordBytes;
    WordBytesValue(WordSum(x, y));
  }

  lemma WordKept(r: seq<nat>, more: seq<nat>, i: nat)
    requires 32 * i + 32 <= |r|
    ensures WordAt(r + more, i) == WordAt(r, i)
  {}

  lemma {:induction false} AddedWords(ct1: seq<nat>, ct2: seq<nat>, n: nat, i: nat)
    requires AreBytes(ct1) && AreBytes(ct2) && i < n && 32 * n <= |ct1| && 32 * n <= |ct2|
    ensures |AddWords(ct1, ct2, n)| == 32 * n && IsSumWord(ct1, ct2, AddWords(ct1, ct2, n), i)
  {
    hide Value, WordBytes, WordSum, IsWord, AreBytes;
    if n > 1 {
      AddedWords(ct1, ct2, n - 1, if i < n - 1 then i else 0);
      WordOfBytes(ct1, n - 1);
      WordOfBytes(ct2, n - 1);
      var x, y := Value(WordAt(ct1, n - 1), 256), Value(WordAt(ct2, n - 1), 256);
      SumIsWord(x, y);
      OneWord(x, y);
      var before, last := AddWords(ct1, ct2, n - 1), WordBytes(WordSum(x, y));
      if i < n - 1 {
        WordKept(before, last, i);
      } else {
        assert WordAt(before + last, n - 1) == last;
      }
    }
  }

  lemma OneWord(x: nat, y: nat)
    requires IsWord(WordBytes(WordSum(x, y)))
    ensures |WordBytes(WordSum(x, y))| == 32
  {}

  // fhe_add: an empty operand gives the other back, operands below three words or of different lengths panic,
  // and otherwise each whole word but the first is the sum of the operands' words.
  lemma FheAddLaw(ct1: seq<nat>, ct2: seq<nat>)
    requires AreBytes(ct1) && AreBytes(ct2)
    ensures var r := FheAddBytes(ct1, ct2);
            && (r.Panic? <==> ct1 != [] && ct2 != [] && (|ct1| < 96 || |ct1| != |ct2|))
            && (ct1 == [] ==> r == Sum(ct2)) && (ct2 == [] ==> r == Sum(ct1))
            && (r.Sum? && ct1 != [] && ct2 != [] ==>
                  |r.bytes| == |ct1| - |ct1| % 32 && forall i :: 0 <= i < |ct1| / 32 ==> IsSumWord(ct1, ct2, r.bytes, i))
  {
    hide IsSumWord, AddWords, AreBytes;
    if ct1 != [] && |ct1| >= 96 && |ct1| == |ct2| {
      var n := |ct1| / 32;
      forall i: nat | i < n ensures |AddWords(ct1, ct2, n)| == 32 * n && IsSumWord(ct1, ct2, AddWords(ct1, ct2, n), i) {
        AddedWords(ct1, ct2, n, i);
      }
      AddedWords(ct1, ct2, n, 0);
    }
  }

  // ----- agreement with the client -----

  // The first n words.
  function BytesOfWords(ws: seq<nat>, n: nat): seq<nat>
    requires n <= |ws|
  {
    if n == 0 then [] else BytesOfWords(ws, n - 1) + WordBytes(ws[n - 1])
  }

  // The bytes a client submits for a ciphertext.
  function Payload(ct: Ciphertext): seq<nat> {
    BytesOfWords(Words(ct), |ct.a| + 2)
  }

  predicate BelowTwo256(ws: seq<nat>) {
    forall i :: 0 <= i < |ws| ==> ws[i] < TWO256
  }

  lemma {:induction false} PayloadWords(ws: seq<nat>, i: nat, n: nat)
    requires BelowTwo256(ws) && i < n <= |ws|
    ensures |BytesOfWords(ws, n)| == 32 * n && WordAt(BytesOfWords(ws, n), i) == WordBytes(ws[i])
  {
    hide WordBytes;
    WordBytesValue(ws[n - 1]);
    if n == 1 {
      assert BytesOfWords(ws, 1) == BytesOfWords(ws, 0) + WordBytes(ws[0]);
    } else {
      PayloadWords(ws, if i < n - 1 then i else 0, n - 1);
    }
  }

  lemma WordsBelow(ct: Ciphertext)
    requires Reduced(ct) && |ct.a| < FHE_PRIME
    ensures BelowTwo256(Words(ct)) && |Words(ct)| == |ct.a| + 2
  {}

  lemma PayloadWord(c: Ciphertext, i: nat)
    requires Reduced(c) && |c.a| < FHE_PRIME && i < |c.a| + 2
    ensures |Payload(c)| == 32 * (|c.a| + 2)
    ensures WordAt(Payload(c), i) == WordBytes(Words(c)[i]) && Value(WordAt(Payload(c), i), 256) == Words(c)[i] < TWO256
  {
    hide WordBytes;
    WordsBelow(c);
    PayloadWords(Words(c), i, |c.a| + 2);
    WordBytesValue(Words(c)[i]);
  }

  // Word i of the sum, for every word but the dimension.
  lemma SumWord(c: Ciphertext, d: Ciphertext, i: nat)
    requires |c.a| == |d.a| < FHE_PRIME && Reduced(c) && Reduced(d) && 1 <= i < |c.a| + 2
    ensures WordSum(Words(c)[i], Words(d)[i]) == Words(AddCiphertexts(c, d))[i]
  {
    WordSumExact(Words(c)[i], Words(d)[i]);
  }

  lemma {:induction false} AddWordsAgree(c: Ciphertext, d: Ciphertext, n: nat)
    requires |c.a| == |d.a| < FHE_PRIME && Reduced(c) && Reduced(d) && 1 <= n <= |c.a| + 2
    ensures |Payload(c)| == |Payload(d)| == 32 * (|c.a| + 2)
    ensures AddWords(Payload(c), Payload(d), n) == BytesOfWords(Words(AddCiphertexts(c, d)), n)
  {
    hide WordBytes, WordSum, Payload, WordAt, AddCiphertexts, Reduced;
    var ws := Words(AddCiphertexts(c, d));
    PayloadWord(c, n - 1);
    PayloadWord(d, n - 1);
    if n == 1 {
      assert BytesOfWords(ws, 1) == BytesOfWords(ws, 0) + WordBytes(ws[0]);
    } else {
      AddWordsAgree(c, d, n - 1);
      SumWord(c, d, n - 1);
    }
  }

  /** The limb adder on serialized ciphertexts is the client's addition, serialized. */
  lemma AdditionsAgree(c: Ciphertext, d: Ciphertext)
    requires 1 <= |c.a| == |d.a| < FHE_PRIME && Reduced(c) && Reduced(d)
    ensures FheAddBytes(Payload(c), Payload(d)) == Sum(Payload(AddCiphertexts(c, d)))
  {
    hide AddWords, AddCiphertexts, Reduced;
    AddWordsAgree(c, d, |c.a| + 2);
  }

  // ----- the payload is the hexadecimal serialization, decoded -----

  function HexBytes(s: string): (b: seq<nat>)
    ensures |b| == |s| / 2
  {
    if |s| < 2 then [] else HexBytes(s[..|s| - 2]) + [CharDigit(s[|s| - 2]) * 16 + CharDigit(s[|s| - 1])]
  }

  lemma {:induction false} HexBytesValue(s: string)
    requires |s| % 2 == 0 && AreChars(s, 16)
    ensures AreBytes(HexBytes(s)) && Value(HexBytes(s), 256) == Value(DigitsOf(s), 16)
  {
    hide Value, DigitsOf, CharDigit;
    if s == "" {
      EmptyHex();
    } else {
      var t := s[..|s| - 2];
      HexBytesValue(t);
      var h, l := CharDigit(s[|s| - 2]), CharDigit(s[|s| - 1]);
      assert DigitsOf(s) == (DigitsOf(t) + [h]) + [l];
      TwoDigits(DigitsOf(t), HexBytes(t), h, l);
    }
  }

  lemma EmptyHex()
    ensures Value([], 256) == 0 && DigitsOf("") == [] && Value([], 16) == 0
  {}

  // Two hexadecimal digits are one byte.
  lemma TwoDigits(ds: seq<nat>, bs: seq<nat>, h: nat, l: nat)
    requires Value(bs, 256) == Value(ds, 16)
    ensures Value(bs + [h * 16 + l], 256) == Value(ds + [h] + [l], 16)
  {
    ValueSnoc(ds + [h], l, 16);
    ValueSnoc(ds, h, 16);
    ValueSnoc(bs, h * 16 + l, 256);
    hide Value;
  }

  lemma HexBytesSnoc(s: string, a: char, b: char)
    ensures HexBytes(s + [a, b]) == HexBytes(s) + [CharDigit(a) * 16 + CharDigit(b)]
  {
    hide CharDigit;
    assert (s + [a, b])[..|s|] == s;
  }

  lemma Reassociate<T>(a: seq<T>, b: seq<T>, c: seq<T>)
    ensures (a + b) + c == a + (b + c)
  {}

  lemma HexBytesMore(s: string, r: string, a: char, b: char)
    requires HexBytes(s + r) == HexBytes(s) + HexBytes(r)
    ensures HexBytes(s + (r + [a, b])) == HexBytes(s) + HexBytes(r + [a, b])
  {
    hide *;
    var last := [CharDigit(a) * 16 + CharDigit(b)];
    Reassociate(s, r, [a, b]);
    HexBytesSnoc(s + r, a, b);
    HexBytesSnoc(r, a, b);
    Reassociate(HexBytes(s), HexBytes(r), last);
  }

  lemma LastTwo(t: string)
    requires |t| >= 2
    ensures t == t[..|t| - 2] + [t[|t| - 2], t[|t| - 1]]
  {}

  lemma {:induction false} HexBytesConcat(s: string, t: string)
    requires |t| % 2 == 0
    ensures HexBytes(s + t) == HexBytes(s) + HexBytes(t)
    decreases |t|
  {
    if t == "" {
      assert s + t == s;
    } else {
      hide *;
      LastTwo(t);
      HexBytesConcat(s, t[..|t| - 2]);
      HexBytesMore(s, t[..|t| - 2], t[|t| - 2], t[|t| - 1]);
    }
  }

  lemma HexWordBytes(v: nat)
    requires v < FHE_PRIME
    ensures HexBytes(Hex32(v)) == WordBytes(v) && |Hex32(v)| == 64
  {
    hide WordBytes, Hex32;
    Hex32Reads(v);
    RemainderUnique(v, FHE_PRIME, 0, v);
    HexBytesValue(Hex32(v));
    WordIsBytes(HexBytes(Hex32(v)));
  }

  lemma {:induction false} HexWordsBytes(ws: seq<nat>, n: nat)
    requires n <= |ws| && forall i :: 0 <= i < |ws| ==> ws[i] < FHE_PRIME
    ensures |HexWords(ws, n)| == 64 * n && HexBytes(HexWords(ws, n)) == BytesOfWords(ws, n)
  {
    hide WordBytes, Hex32;
    if n != 0 {
      HexWordsBytes(ws, n - 1);
      HexWordBytes(ws[n - 1]);
      HexBytesConcat(HexWords(ws, n - 1), Hex32(ws[n - 1]));
    }
  }

  lemma PayloadIsSerialized(ct: Ciphertext)
    requires Reduced(ct) && |ct.a| < FHE_PRIME
    ensures HexBytes(CleanHex(Serialized(ct))) == Payload(ct)
  {
    hide HexBytes;
    HexWordsBytes(Words(ct), |ct.a| + 2);
  }

  // ----- the accumulator of a request -----

  datatype Accumulator = Accumulator(bytes: seq<nat>, count: nat)

  // What approve_access_fhe does with one share; a panic reverts the call.
  function Accumulate(acc: Accumulator, share: seq<nat>): (r: Option<Accumulator>) {
    if share == [] then Some(acc) else
      match FheAddBytes(acc.bytes, share)
      case Sum(b) => Some(Accumulator(b, acc.count + 1))
      case Panic => None
  }

  // The accumulator after the first n shares, if none panics.
  function AccumulateAll(shares: seq<seq<nat>>, n: nat): Option<Accumulator>
    requires n <= |shares|
  {
    if n == 0 then Some(Accumulator([], 0)) else
      match AccumulateAll(shares, n - 1)
      case Some(acc) => Accumulate(acc, shares[n - 1])
      case None => None
  }

  // Each share is empty or the payload of a ciphertext of dimension dim.
  ghost predicate Submitted(shares: seq<seq<nat>>, cts: seq<Option<Ciphertext>>, dim: nat) {
    && |shares| == |cts| && 1 <= dim < FHE_PRIME
    && forall i :: 0 <= i < |cts| ==>
         match cts[i]
         case Some(ct) => shares[i] == Payload(ct) && Reduced(ct) && |ct.a| == dim
         case None => shares[i] == []
  }

  // The number of ciphertexts, and the sum of their plaintexts, among the first n.
  function CountOf(cts: seq<Option<Ciphertext>>, n: nat): nat
    requires n <= |cts|
  {
    if n == 0 then 0 else CountOf(cts, n - 1) + if cts[n - 1].Some? then 1 else 0
  }

  ghost function PlainSum(cts: seq<Option<Ciphertext>>, n: nat, s: seq<nat>): nat
    requires n <= |cts| && forall i :: 0 <= i < |cts| && cts[i].Some? ==> |cts[i].value.a| == |s|
  {
    if n == 0 then 0 else PlainSum(cts, n - 1, s) + if cts[n - 1].Some? then Plain(cts[n - 1].value, s) else 0
  }

  // acc is empty with nothing counted, or the payload of a ciphertext of the plaintext sum.
  ghost predicate AccumulatorHolds(acc: Accumulator, count: nat, sum: nat, s: seq<nat>) {
    && acc.count == count
    && if count == 0 then acc.bytes == [] && sum == 0
       else exists ct :: IsAggregate(ct, acc.bytes, sum, s)
  }

  ghost predicate IsAggregate(ct: Ciphertext, bytes: seq<nat>, sum: nat, s: seq<nat>) {
    Reduced(ct) && |ct.a| == |s| && bytes == Payload(ct) && Cong(Plain(ct, s), sum, FHE_PRIME)
  }

  lemma PayloadNotEmpty(ct: Ciphertext)
    requires Reduced(ct) && |ct.a| < FHE_PRIME
    ensures Payload(ct) != []
  {
    WordsBelow(ct);
    PayloadWords(Words(ct), 0, |ct.a| + 2);
  }

  /** Over any run of submissions of one dimension nothing panics, the counter is the number of
      non-empty shares and the accumulator decrypts, under every key, to the plaintext sum. */
  lemma {:induction false} AccumulatorDecryptsToSum(shares: seq<seq<nat>>, cts: seq<Option<Ciphertext>>, n: nat, s: seq<nat>)
    requires Submitted(shares, cts, |s|) && n <= |cts|
    ensures AccumulateAll(shares, n).Some?
    ensures AccumulatorHolds(AccumulateAll(shares, n).value, CountOf(cts, n), PlainSum(cts, n, s), s)
  {
    hide Payload, Plain, FheAddBytes, Reduced;
    if n != 0 {
      var i := n - 1;
      AccumulatorDecryptsToSum(shares, cts, i, s);
      if cts[i].Some? {
        PayloadNotEmpty(cts[i].value);
        AccumulateOne(AccumulateAll(shares, i).value, cts[i].value, CountOf(cts, i), PlainSum(cts, i, s), s);
      }
    }
  }

  lemma AccumulateOne(acc: Accumulator, ct: Ciphertext, count: nat, sum: nat, s: seq<nat>)
    requires AccumulatorHolds(acc, count, sum, s) && Reduced(ct) && 1 <= |ct.a| == |s| < FHE_PRIME
    ensures Payload(ct) != []
    ensures var r := Accumulate(acc, Payload(ct));
            r.Some? && AccumulatorHolds(r.value, count + 1, sum + Plain(ct, s), s)
  {
    hide Payload, Plain, Reduced, AddCiphertexts;
    PayloadNotEmpty(ct);
    if count == 0 {
      assert IsAggregate(ct, Payload(ct), sum + Plain(ct, s), s);
    } else {
      var before :| IsAggregate(before, acc.bytes, sum, s);
      AdditionsAgree(before, ct);
      PayloadNotEmpty(before);
      PlainOfSum(before, ct, s);
      SumStep(Plain(before, s), sum, Plain(ct, s), FHE_PRIME);
      assert IsAggregate(AddCiphertexts(before, ct), Payload(AddCiphertexts(before, ct)), sum + Plain(ct, s), s);
    }
  }
}

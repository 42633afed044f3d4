/** The incremental SHA-256 of src/core/crypto/streamingCrypto.service.ts: buffering, padding and the length
    words. The compression of one block is a parameter. */
module Sha256 {
  import opened Chunks
  import opened Numbers
  import opened Radix
  import opened Text

  const BLOCK := 64

  // The eight chaining words.
  type Words = seq<nat>

  const INITIAL: Words := [0x6a09e667, 0xbb67ae85, 0x3c6ef372, 0xa54ff53a, 0x510e527f, 0x9b05688c, 0x1f83d9ab, 0x5be0cd19]

  // What compression makes of the full blocks of a message.
  function Digested(compress: (Words, bytes) -> Words, h: Words, m: bytes): Words
    decreases |m|
  {
    if |m| < BLOCK then h else Digested(compress, compress(h, m[..BLOCK]), m[BLOCK..])
  }

  // Digesting a message in parts is digesting it whole, wherever it is cut.
  lemma {:induction false} DigestedMore(compress: (Words, bytes) -> Words, h: Words, m: bytes, more: bytes)
    ensures Digested(compress, h, m + more) == Digested(compress, Digested(compress, h, m), Remainder(BLOCK, m) + more)
    decreases |m|
  {
    if |m| >= BLOCK {
      assert (m + more)[..BLOCK] == m[..BLOCK] && (m + more)[BLOCK..] == m[BLOCK..] + more;
      DigestedMore(compress, compress(h, m[..BLOCK]), m[BLOCK..], more);
    }
  }

  // Block by block, in order.
  lemma FoldsBlocks(compress: (Words, bytes) -> Words, h: Words, m: bytes, block: bytes)
    requires |m| % BLOCK == 0 && |block| == BLOCK
    ensures Digested(compress, h, []) == h
    ensures Digested(compress, h, m + block) == compress(Digested(compress, h, m), block)
  {
    DigestedMore(compress, h, m, block);
    RemainderLength(m);
    assert Remainder(BLOCK, m) + block == block;
    assert block[..BLOCK] == block && block[BLOCK..] == [];
  }

  const PRIMES: seq<nat> := [2, 3, 5, 7, 11, 13, 17, 19]

  // The first 32 bits of the fractional parts of the square roots of the first eight primes, section 5.3.3 of
  // FIPS 180-4: with its whole part before it, each word is the root's largest approximation from below.
  lemma InitialWords(i: nat)
    requires i < 8
    ensures |INITIAL| == |PRIMES| == 8 && INITIAL[i] < WORD
    ensures exists whole: nat :: IsRoot(PRIMES[i], whole * WORD + INITIAL[i])
  {
    var whole: nat := if i < 2 then 1 else if i < 4 then 2 else if i < 6 then 3 else 4;
    assert IsRoot(PRIMES[i], whole * WORD + INITIAL[i]) by { Roots(i); }
  }

  predicate IsRoot(p: nat, v: nat) {
    v * v <= p * WORD * WORD < (v + 1) * (v + 1)
  }

  lemma Roots(i: nat)
    requires i < 8
    ensures IsRoot(PRIMES[i], (if i < 2 then 1 else if i < 4 then 2 else if i < 6 then 3 else 4) * WORD + INITIAL[i])
  {
    assert IsRoot(2, 0x16a09e667);
    assert IsRoot(3, 0x1bb67ae85);
    assert IsRoot(5, 0x23c6ef372);
    assert IsRoot(7, 0x2a54ff53a);
    assert IsRoot(11, 0x3510e527f);
    assert IsRoot(13, 0x39b05688c);
    assert IsRoot(17, 0x41f83d9ab);
    assert IsRoot(19, 0x45be0cd19);
    hide IsRoot;
  }

  // ----- padding, section 5.1.1 of FIPS 180-4 -----

  // With k zero bytes after the 0x80, eight bytes are left in the last block.
  predicate LeavesLength(length: nat, k: nat) {
    (length + 1 + k) % BLOCK == 56
  }

  // The smallest such number of zero bytes.
  function ZeroPad(length: nat): (k: nat)
    ensures LeavesLength(length, k)
    ensures forall j: nat :: j < k ==> !LeavesLength(length, j)
  {
    var r := (length + 1) % BLOCK;
    if r <= 56 then 56 - r else 120 - r
  }

  // The message's length in bits as a 64-bit integer.
  ghost predicate IsLength(b: bytes, length: nat) {
    |b| == 8 && ReadBe32(b[..4]) * WORD + ReadBe32(b[4..]) == 8 * length
  }

  function NoBytes(k: nat): (z: bytes)
    ensures |z| == k && forall i :: 0 <= i < k ==> z[i] == 0
  {
    seq(k, _ => 0)
  }

  // A message, padded; length bytes are given.
  function Padded(m: bytes, lengthBytes: bytes): bytes {
    m + [0x80] + NoBytes(ZeroPad(|m|)) + lengthBytes
  }

  // The two words the code writes: the high one by a division, the low one by a 32-bit shift.
  function LengthBytes(length: nat): (b: bytes)
    requires length < 0x20_0000_0000_0000
    ensures |b| == 8
  {
    Be32(length / 0x2000_0000) + Be32((length % WORD) * 8 % WORD)
  }

  // Shifting the truncated length left by three keeps the low 29 bits of the whole length.
  lemma LowWord(length: nat)
    ensures (length % WORD) * 8 % WORD == 8 * (length % 0x2000_0000)
  {
    var hi, s := length / 0x2000_0000, length % 0x2000_0000;
    var top := length / WORD;
    assert length == hi * 0x2000_0000 + s && length == top * WORD + length % WORD;
    AddMultiple(8 * s, hi - 8 * top, WORD);
    assert (length % WORD) * 8 == 8 * s + (hi - 8 * top) * WORD;
  }

  // The length words hold the message's length in bits.
  lemma LengthBytesExact(length: nat)
    requires length < 0x20_0000_0000_0000
    ensures IsLength(LengthBytes(length), length)
  {
    var hi, lo := length / 0x2000_0000, (length % WORD) * 8 % WORD;
    ReadBe32OfBe32(hi);
    ReadBe32OfBe32(lo);
    LowWord(length);
    hide Be32, ReadBe32;
    assert LengthBytes(length)[..4] == Be32(hi) && LengthBytes(length)[4..] == Be32(lo);
  }

  // Padding fills whole blocks: nothing is left in the buffer.
  lemma PaddedFills(m: bytes, lengthBytes: bytes)
    requires |lengthBytes| == 8
    ensures |Padded(m, lengthBytes)| % BLOCK == 0 && Remainder(BLOCK, Padded(m, lengthBytes)) == []
  {
    RemainderLength(Padded(m, lengthBytes));
  }

  // The message, a one bit, the fewest zeros that make whole blocks, and the length.
  lemma PaddedShape(m: bytes, lengthBytes: bytes)
    requires |lengthBytes| == 8
    ensures var p := Padded(m, lengthBytes);
            && |p| % BLOCK == 0 && |m| + 9 <= |p| < |m| + 9 + BLOCK
            && p[..|m|] == m && p[|m|] == 0x80 && p[|p| - 8..] == lengthBytes
            && forall i :: |m| < i < |p| - 8 ==> p[i] == 0
  {
    PaddedFills(m, lengthBytes);
    var p, k := Padded(m, lengthBytes), ZeroPad(|m|);
    assert |p| == |m| + 9 + k;
    assert p[|p| - 8..] == lengthBytes;
    assert p[..|m|] == m;
    forall i | |m| < i < |p| - 8 ensures p[i] == 0 {
      assert p[i] == NoBytes(k)[i - |m| - 1];
    }
  }

  lemma {:induction false} RemainderLength(m: bytes)
    ensures |Remainder(BLOCK, m)| == |m| % BLOCK
    decreases |m|
  {
    if |m| >= BLOCK {
      RemainderLength(m[BLOCK..]);
    }
  }

  // ----- hexadecimal digest -----

  ghost predicate AreWords(ws: Words) {
    |ws| == 8 && forall i :: 0 <= i < 8 ==> ws[i] < WORD
  }

  // Compression of a block gives eight 32-bit words.
  ghost predicate IsCompression(compress: (Words, bytes) -> Words) {
    forall ws, block :: AreWords(ws) && |block| == BLOCK ==> AreWords(compress(ws, block))
  }

  lemma {:induction false} DigestedWords(compress: (Words, bytes) -> Words, h: Words, m: bytes)
    requires IsCompression(compress) && AreWords(h)
    ensures AreWords(Digested(compress, h, m))
    decreases |m|
  {
    hide AreWords;
    if |m| >= BLOCK {
      DigestedWords(compress, compress(h, m[..BLOCK]), m[BLOCK..]);
    }
  }

  function ByteHex(b: byte): string {
    PadStart(Print(b, 16), 2)
  }

  function BytesHex(b: bytes): string {
    if b == [] then "" else
      var n := |b| - 1;
      BytesHex(b[..n]) + ByteHex(b[n])
  }

  // The bytes of the first n words.
  function WordBytes(ws: Words, n: nat): (b: bytes)
    requires AreWords(ws) && n <= 8
    ensures |b| == 4 * n
  {
    if n == 0 then [] else WordBytes(ws, n - 1) + Be32(ws[n - 1])
  }

  function Nats(b: bytes): (n: seq<nat>)
    ensures |n| == |b| && forall i :: 0 <= i < |b| ==> n[i] == b[i]
  {
    seq(|b|, i requires 0 <= i < |b| => b[i])
  }

  // A word's bytes are its digits in base 256, most significant first.
  lemma Be32Value(n: nat)
    requires n < WORD
    ensures Value(Nats(Be32(n)), 256) == n
  {
    ReadBe32OfBe32(n);
    var b := Nats(Be32(n));
    assert b[..3][..2] == b[..2] && b[..2][..1] == b[..1] && b[..1][..0] == [];
    assert Value(b[..1], 256) == b[0] && Value(b[..2], 256) == b[0] * 256 + b[1];
    assert Value(b[..3], 256) == (b[0] * 256 + b[1]) * 256 + b[2];
  }

  // The words' bytes are the words' number in base 256.
  lemma {:induction false} WordBytesValue(ws: Words, n: nat)
    requires AreWords(ws) && n <= 8
    ensures Value(Nats(WordBytes(ws, n)), 256) == Value(ws[..n], WORD)
  {
    hide Be32, Nats;
    if n > 0 {
      WordBytesValue(ws, n - 1);
      Be32Value(ws[n - 1]);
      var front, last := WordBytes(ws, n - 1), Be32(ws[n - 1]);
      assert Nats(front + last) == Nats(front) + Nats(last);
      ValueConcat(Nats(front), Nats(last), 256);
      WordBase();
      assert ws[..n][..n - 1] == ws[..n - 1];
    } else {
      assert Nats([]) == [] && ws[..0] == [];
    }
  }

  lemma WordBase()
    ensures Pow(256, 4) == WORD
  {
    assert Pow(256, 2) == 0x1_0000;
  }

  lemma ByteHexDigits(b: byte)
    ensures |ByteHex(b)| == 2 && Value(DigitsOf(ByteHex(b)), 16) == b
  {
    hide Print, PadStart, Digits;
    ParsePrint(b, 2, 16);
    assert Pow(16, 2) == 256 by {
      assert Pow(16, 1) == 16 * Pow(16, 0);
    }
    DigitCount(b, 2, 16);
  }

  // The text has two digits for each byte and reads as the bytes' number, leading zeros included.
  lemma {:induction false} BytesHexExact(b: bytes)
    ensures |BytesHex(b)| == 2 * |b| && Value(DigitsOf(BytesHex(b)), 16) == Value(Nats(b), 256)
  {
    hide DigitsOf, ByteHex, Nats;
    if b == [] {
      assert DigitsOf("") == [] && Nats([]) == [];
    } else {
      var n := |b| - 1;
      BytesHexExact(b[..n]);
      ByteHexDigits(b[n]);
      var front, last := BytesHex(b[..n]), ByteHex(b[n]);
      assert DigitsOf(front + last) == DigitsOf(front) + DigitsOf(last);
      ValueConcat(DigitsOf(front), DigitsOf(last), 16);
      assert Pow(16, 2) == 256 by {
        assert Pow(16, 1) == 16 * Pow(16, 0);
      }
      assert Nats(b)[..n] == Nats(b[..n]);
    }
  }

  // ----- the object -----

  class Sha256 {
    const compress: (Words, bytes) -> Words
    const block: array<byte>
    var h: Words
    var blockOffset: nat
    var bytesHashed: nat

    // The state after absorbing m: its full blocks are digested, the rest is in the buffer.
    ghost predicate Absorbed(m: bytes)
      reads this, block
    {
      && block.Length == BLOCK && blockOffset < BLOCK
      && h == Digested(compress, INITIAL, m)
      && block[..blockOffset] == Remainder(BLOCK, m)
    }

    constructor (compress: (Words, bytes) -> Words)
      ensures this.compress == compress && fresh(block)
      ensures Absorbed([]) && bytesHashed == 0
    {
      this.compress := compress;
      block := new byte[BLOCK];
      h, blockOffset, bytesHashed := INITIAL, 0, 0;
    }

    method ProcessBlock()
      requires block.Length == BLOCK
      modifies this`h
      ensures h == compress(old(h), block[..])
    {
      h := compress(h, block[..]);
    }

    // Copies up to one block's worth of the data, and processes the block if that fills it.
    method CopyIn(ghost m: bytes, data: bytes, offset: nat) returns (n: nat)
      requires Absorbed(m) && offset < |data|
      modifies this`h, this`blockOffset, block
      ensures 0 < n <= |data| - offset && Absorbed(m + data[offset..offset + n])
    {
      n := if BLOCK - blockOffset < |data| - offset then BLOCK - blockOffset else |data| - offset;
      ghost var part := data[offset..offset + n];
      DigestedMore(compress, INITIAL, m, part);
      RemainderMore(BLOCK, m, part);
      ghost var start := block[..blockOffset];
      forall k | 0 <= k < n {
        block[blockOffset + k] := data[offset + k];
      }
      blockOffset := blockOffset + n;
      assert block[..blockOffset] == start + part;
      if blockOffset == BLOCK {
        ProcessBlock();
        blockOffset := 0;
        assert block[..] == start + part;
        assert (start + part)[..BLOCK] == start + part && (start + part)[BLOCK..] == [];
      }
    }

    // The loop shared by update and the padding.
    method Push(ghost m: bytes, data: bytes)
      requires Absorbed(m)
      modifies this`h, this`blockOffset, block
      ensures Absorbed(m + data)
    {
      var offset := 0;
      assert m + data[..0] == m;
      while offset < |data|
        invariant offset <= |data| && Absorbed(m + data[..offset])
      {
        var n := CopyIn(m + data[..offset], data, offset);
        assert (m + data[..offset]) + data[offset..offset + n] == m + data[..offset + n];
        offset := offset + n;
      }
      assert data[..offset] == data;
    }

    method Update(ghost received: bytes, data: bytes)
      requires Absorbed(received) && bytesHashed == |received|
      modifies this, block
      ensures Absorbed(received + data) && bytesHashed == |received + data|
    {
      bytesHashed := bytesHashed + |data|;
      Push(received, data);
    }

    // Zero bytes until eight bytes of the block are left; the loop ends after fewer than 64.
    method PadZeros(ghost before: bytes)
      requires Absorbed(before) && before != []
      modifies this`h, this`blockOffset, block
      ensures Absorbed(before + NoBytes(ZeroPad(|before| - 1))) && blockOffset == 56
    {
      ghost var zeros: nat, k := 0, ZeroPad(|before| - 1);
      assert before + NoBytes(0) == before;
      RemainderLength(before);
      while blockOffset != 56
        invariant zeros <= k && Absorbed(before + NoBytes(zeros))
        invariant blockOffset == (|before| + zeros) % BLOCK
        decreases k - zeros
      {
        assert LeavesLength(|before| - 1, k) && !LeavesLength(|before| - 1, zeros);
        Push(before + NoBytes(zeros), [0x00]);
        assert (before + NoBytes(zeros)) + [0] == before + NoBytes(zeros + 1);
        zeros := zeros + 1;
        RemainderLength(before + NoBytes(zeros));
      }
      assert LeavesLength(|before| - 1, zeros);
    }

    // The digest of everything received, padded; it is the same however the updates cut it.
    method Finish(ghost received: bytes)
      requires Absorbed(received) && bytesHashed == |received| < 0x20_0000_0000_0000
      modifies this, block
      ensures h == Digested(compress, INITIAL, Padded(received, LengthBytes(|received|)))
    {
      hide Digested, Remainder, Be32;
      var savedLen := bytesHashed;
      Push(received, [0x80]);
      PadZeros(received + [0x80]);
      var bitLenHi := savedLen / 0x2000_0000;
      var bitLenLo := (savedLen % WORD) * 8 % WORD;
      var lenBlock := Be32(bitLenHi) + Be32(bitLenLo);
      Push((received + [0x80]) + NoBytes(ZeroPad(|received|)), lenBlock);
    }

    method DigestHex(ghost received: bytes) returns (text: string)
      requires Absorbed(received) && bytesHashed == |received| < 0x20_0000_0000_0000 && IsCompression(compress)
      modifies this, block
      ensures var words := Digested(compress, INITIAL, Padded(received, LengthBytes(|received|)));
              AreWords(words) && text == BytesHex(WordBytes(words, 8))
      ensures IsLength(LengthBytes(|received|), |received|)
      ensures |Padded(received, LengthBytes(|received|))| % BLOCK == 0
      ensures |text| == 64 && AreWords(h) && Value(DigitsOf(text), 16) == Value(h, WORD)
    {
      LengthBytesExact(|received|);
      PaddedFills(received, LengthBytes(|received|));
      Finish(received);
      DigestedWords(compress, INITIAL, Padded(received, LengthBytes(|received|)));
      hide Digested, Padded, LengthBytes, Be32, ByteHex, AreWords, IsLength, DigitsOf, Value, Nats;
      var digest := [];
      var i := 0;
      while i < 8
        invariant i <= 8 && AreWords(h) && digest == WordBytes(h, i)
        invariant h == Digested(compress, INITIAL, Padded(received, LengthBytes(|received|)))
      {
        WordOf(h, i);
        digest := digest + Be32(h[i]);
        i := i + 1;
      }
      text := "";
      i := 0;
      while i < |digest|
        invariant i <= |digest| && text == BytesHex(digest[..i])
      {
        assert digest[..i + 1][..i] == digest[..i];
        text := text + ByteHex(digest[i]);
        i := i + 1;
      }
      assert digest[..i] == digest;
      BytesHexExact(digest);
      WordBytesValue(h, 8);
      AllWords(h);
    }
  }

  lemma AllWords(ws: Words)
    requires AreWords(ws)
    ensures ws[..8] == ws
  {}

  lemma WordOf(ws: Words, i: nat)
    requires AreWords(ws) && i < 8
    ensures i < |ws| && ws[i] < WORD
  {}
}

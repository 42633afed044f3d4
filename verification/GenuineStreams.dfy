/** What the decoder of streamingCrypto.service.ts accepts: only streams of frames that each open under their
    own index, of which only the last is short. */
module GenuineStreams {
  import opened Chunks
  import opened Streaming

  // A frame on the wire: its iv, its sealed bytes, and the text they open to.
  datatype Sealed = Sealed(iv: bytes, box: bytes, part: bytes)

  function FrameBytes(f: Sealed): bytes
    requires TAG_LENGTH <= |f.box| < WORD
  {
    Be32(|f.box| - TAG_LENGTH) + f.iv + f.box
  }

  // The bytes are these frames, one after the other: frame i opens as chunk i, all but the last announce the
  // full chunk size and the last announces less.
  ghost predicate IsStream(a: Aead, c: nat, i: nat, stream: bytes, frames: seq<Sealed>)
    decreases |frames|
  {
    && frames != []
    && var f := frames[0];
       && |f.iv| == IV_LENGTH && TAG_LENGTH <= |f.box| < WORD
       && a.open(f.iv, Be32(i % WORD), f.box) == Plain(f.part)
       && FrameBytes(f) <= stream
       && var rest := stream[|FrameBytes(f)|..];
          if |frames| == 1 then |f.box| - TAG_LENGTH < c && rest == []
          else |f.box| - TAG_LENGTH == c && IsStream(a, c, i + 1, rest, frames[1..])
  }

  function TextOf(frames: seq<Sealed>): bytes {
    if frames == [] then [] else frames[0].part + TextOf(frames[1..])
  }

  lemma Be32OfRead(b: bytes)
    requires |b| == 4
    ensures Be32(ReadBe32(b)) == b
  {
    var n := ReadBe32(b);
    var x, y, z, w := b[0] as int, b[1] as int, b[2] as int, b[3] as int;
    assert n / 0x1000000 == x && n / 0x10000 == x * 0x100 + y && n / 0x100 == x * 0x10000 + y * 0x100 + z;
  }

  // The frame a decoder step takes off its buffer.
  function FrontFrame(a: Aead, d: Decoder): (f: Sealed)
    requires Sane(d) && d.headerParsed && !d.finalized && (FrameStep(a, d).More? || FrameStep(a, d).Last?)
    ensures |f.iv| == IV_LENGTH && TAG_LENGTH <= |f.box| <= d.chunkSize + TAG_LENGTH < WORD
  {
    var n := ReadBe32(d.chunks[0][..4]);
    var frame := Flat(d.chunks)[..4 + IV_LENGTH + n + TAG_LENGTH];
    var iv, box := frame[4..4 + IV_LENGTH], frame[4 + IV_LENGTH..];
    var answer := a.open(iv, Be32(d.chunkIndex % WORD), box);
    Sealed(iv, box, if answer.Plain? then answer.text else [])
  }

  lemma HeadInFlat(ps: seq<bytes>)
    requires ps != [] && |ps[0]| >= 4
    ensures |Flat(ps)| >= 4 && Flat(ps)[..4] == ps[0][..4]
  {}

  // A step that takes a frame: the frame opened, its bytes leave the buffer and its text joins the output.
  lemma FrontOpens(a: Aead, d: Decoder)
    requires Sane(d) && d.headerParsed && !d.finalized && (FrameStep(a, d).More? || FrameStep(a, d).Last?)
    ensures var f, e := FrontFrame(a, d), FrameStep(a, d).d;
            && a.open(f.iv, Be32(d.chunkIndex % WORD), f.box) == Plain(f.part)
            && FrameBytes(f) + Flat(e.chunks) == Flat(d.chunks)
            && e.out == d.out + f.part && e.chunkIndex == d.chunkIndex + 1 && e.chunkSize == d.chunkSize
            && (FrameStep(a, d).More? ==> |f.box| - TAG_LENGTH == d.chunkSize && |Flat(e.chunks)| < |Flat(d.chunks)|)
            && (FrameStep(a, d).Last? ==> |f.box| - TAG_LENGTH < d.chunkSize && Flat(e.chunks) == [])
  {
    var n := ReadBe32(d.chunks[0][..4]);
    var size := 4 + IV_LENGTH + n + TAG_LENGTH;
    var all := Flat(d.chunks);
    FlatDrained(d.chunks, size);
    HeadInFlat(d.chunks);
    Be32OfRead(d.chunks[0][..4]);
    hide Flat, Drained, Be32, ReadBe32;
    var f := FrontFrame(a, d);
    assert FrameBytes(f) == all[..size] by {
      assert all[..size] == all[..4] + all[..size][4..4 + IV_LENGTH] + all[..size][4 + IV_LENGTH..];
    }
    assert all == all[..size] + all[size..];
  }

  lemma StreamOn(a: Aead, c: nat, i: nat, f: Sealed, rest: bytes, frames: seq<Sealed>)
    requires |f.iv| == IV_LENGTH && TAG_LENGTH <= |f.box| < WORD && |f.box| - TAG_LENGTH == c
    requires a.open(f.iv, Be32(i % WORD), f.box) == Plain(f.part) && IsStream(a, c, i + 1, rest, frames)
    ensures IsStream(a, c, i, FrameBytes(f) + rest, [f] + frames)
    ensures TextOf([f] + frames) == f.part + TextOf(frames)
  {
    hide Be32;
    assert (FrameBytes(f) + rest)[|FrameBytes(f)|..] == rest;
    assert ([f] + frames)[1..] == frames;
  }

  lemma StreamEnd(a: Aead, c: nat, i: nat, f: Sealed)
    requires |f.iv| == IV_LENGTH && TAG_LENGTH <= |f.box| < WORD && |f.box| - TAG_LENGTH < c
    requires a.open(f.iv, Be32(i % WORD), f.box) == Plain(f.part)
    ensures IsStream(a, c, i, FrameBytes(f), [f]) && TextOf([f]) == f.part
  {
    hide Be32;
    assert FrameBytes(f)[|FrameBytes(f)|..] == [];
    assert [f][1..] == [] && TextOf([]) == [];
  }

  // From a frame start on: what is decrypted was a stream of genuine frames.
  lemma {:induction false} DecodedFrom(a: Aead, d: Decoder, pieces: seq<bytes>, text: bytes) returns (frames: seq<Sealed>)
    requires Sane(d) && d.headerParsed && !d.finalized && Finished(a, Loop(a, d), pieces) == Decrypted(text)
    ensures IsStream(a, d.chunkSize, d.chunkIndex, Flat(d.chunks + pieces), frames)
    ensures text == d.out + TextOf(frames)
    decreases |pieces|, |Flat(d.chunks)|
  {
    hide IsStream, TextOf, Flat, FrameStep;
    var step := FrameStep(a, d);
    match step
    case Wait =>
      var e := d.(chunks := d.chunks + [pieces[0]]);
      assert e.chunks + pieces[1..] == d.chunks + pieces;
      frames := DecodedFrom(a, e, pieces[1..], text);
    case Last(e) =>
      FrontOpens(a, d);
      var f := FrontFrame(a, d);
      StreamEnd(a, d.chunkSize, d.chunkIndex, f);
      frames := [f];
      LastIsAll(a, e, pieces, text);
      assert d.chunks + pieces == d.chunks && FrameBytes(f) + [] == FrameBytes(f);
    case More(e) =>
      FrontOpens(a, d);
      var f := FrontFrame(a, d);
      var rest := DecodedFrom(a, e, pieces, text);
      frames := [f] + rest;
      FlatAppend(d.chunks, pieces);
      FlatAppend(e.chunks, pieces);
      StreamOn(a, d.chunkSize, d.chunkIndex, f, Flat(e.chunks + pieces), rest);
      assert FrameBytes(f) + (Flat(e.chunks) + Flat(pieces)) == (FrameBytes(f) + Flat(e.chunks)) + Flat(pieces);
      assert d.out + (f.part + TextOf(rest)) == (d.out + f.part) + TextOf(rest);
  }

  // After the last frame nothing may follow.
  lemma LastIsAll(a: Aead, e: Decoder, pieces: seq<bytes>, text: bytes)
    requires Sane(e) && e.headerParsed && e.finalized && Finished(a, Running(e), pieces) == Decrypted(text)
    ensures pieces == [] && text == e.out
  {}

  lemma {:induction false} DecodedAll(a: Aead, d: Decoder, pieces: seq<bytes>, text: bytes)
    returns (c: nat, frames: seq<Sealed>)
    requires !d.headerParsed && !d.finalized && d.chunkIndex == 0 && d.out == [] && |Flat(d.chunks)| < HEADER_SIZE
    requires Finished(a, Running(d), pieces) == Decrypted(text)
    ensures IsEncrypted(a, Flat(d.chunks + pieces), c, frames) && text == TextOf(frames)
    decreases |pieces|
  {
    hide IsStream, TextOf, Flat, FrameStep, Loop, ParseHeader;
    var e := d.(chunks := d.chunks + [pieces[0]]);
    assert e.chunks + pieces[1..] == d.chunks + pieces;
    if |Flat(e.chunks)| < HEADER_SIZE {
      c, frames := DecodedAll(a, e, pieces[1..], text);
    } else {
      c := ParseHeader(Flat(e.chunks)[..HEADER_SIZE]).chunkSize;
      var f := e.(chunks := Drained(e.chunks, HEADER_SIZE), headerParsed := true, chunkSize := c);
      frames := DecodedFrom(a, f, pieces[1..], text);
      FlatAppend(f.chunks, pieces[1..]);
      FlatAppend(e.chunks, pieces[1..]);
      FlatDrained(e.chunks, HEADER_SIZE);
      var all := Flat(e.chunks) + Flat(pieces[1..]);
      assert all[..HEADER_SIZE] == Flat(e.chunks)[..HEADER_SIZE];
      assert all[HEADER_SIZE..] == Flat(f.chunks) + Flat(pieces[1..]);
    }
  }

  // A header that announces c, then a stream of frames.
  ghost predicate IsEncrypted(a: Aead, all: bytes, c: nat, frames: seq<Sealed>) {
    && |all| >= HEADER_SIZE && ParseHeader(all[..HEADER_SIZE]) == Header(c)
    && IsStream(a, c, 0, all[HEADER_SIZE..], frames)
  }

  /** For arbitrary bytes, however they are cut: whatever is decrypted was a header and frames that all opened
      under their own index, in order and whole, and the output is their texts. One frame that is refused, is
      out of place or is missing makes the stream rejected. */
  lemma OnlyGenuineStreams(a: Aead, pieces: seq<bytes>, text: bytes)
    requires Decrypt(a, pieces) == Decrypted(text)
    ensures exists c, frames :: IsEncrypted(a, Flat(pieces), c, frames) && text == TextOf(frames)
  {
    hide IsStream, TextOf, Flat, FrameStep, Loop, ParseHeader, Finished;
    assert |Flat([])| == 0 by { FlatNone(); }
    var c, frames := DecodedAll(a, FRESH, pieces, text);
    assert FRESH.chunks + pieces == pieces;
  }

  // ----- what the encoder sends -----

  // Frame k is its part sealed under iv and index i + k.
  ghost predicate OwnIvs(a: Aead, i: nat, frames: seq<Sealed>) {
    forall k: nat :: k < |frames| ==>
      frames[k].iv == a.iv(i + k) && frames[k].box == a.seal(frames[k].iv, Be32((i + k) % WORD), frames[k].part)
  }

  lemma OwnIvsOn(a: Aead, i: nat, f: Sealed, frames: seq<Sealed>)
    requires f.iv == a.iv(i) && f.box == a.seal(f.iv, Be32(i % WORD), f.part) && OwnIvs(a, i + 1, frames)
    ensures OwnIvs(a, i, [f] + frames)
  {
    hide Be32;
    forall k: nat | 1 <= k < |frames| + 1
      ensures ([f] + frames)[k] == frames[k - 1] && i + k == (i + 1) + (k - 1)
    {}
  }

  lemma {:induction false} FramesAreGenuine(a: Aead, c: nat, i: nat, text: bytes) returns (frames: seq<Sealed>)
    requires IsAead(a) && 0 < c <= MAX_CHUNK
    ensures IsStream(a, c, i, Frames(a, c, i, text), frames) && TextOf(frames) == text && OwnIvs(a, i, frames)
    decreases |text|
  {
    hide Be32;
    if |text| < c {
      var f := Sealed(a.iv(i), a.seal(a.iv(i), Be32(i % WORD), text), text);
      frames := [f];
      StreamEnd(a, c, i, f);
    } else {
      var part := text[..c];
      var f := Sealed(a.iv(i), a.seal(a.iv(i), Be32(i % WORD), part), part);
      var rest := FramesAreGenuine(a, c, i + 1, text[c..]);
      frames := [f] + rest;
      hide IsAead, IsStream, OwnIvs, TextOf;
      assert Frames(a, c, i, text) == FrameBytes(f) + Frames(a, c, i + 1, text[c..]);
      StreamOn(a, c, i, f, Frames(a, c, i + 1, text[c..]), rest);
      OwnIvsOn(a, i, f, rest);
      assert text == part + text[c..];
    }
  }

  // What is encrypted is such a stream of its text, each part sealed under an iv and an index of its own.
  lemma EncryptedIsGenuine(a: Aead, c: nat, text: bytes) returns (frames: seq<Sealed>)
    requires IsAead(a) && 0 < c <= MAX_CHUNK
    ensures IsEncrypted(a, Encrypted(a, c, text), c, frames) && TextOf(frames) == text && OwnIvs(a, 0, frames)
  {
    frames := FramesAreGenuine(a, c, 0, text);
    HeaderRoundTrip(c);
    hide Frames, BuildHeader, ParseHeader, IsStream, TextOf, OwnIvs;
    assert Encrypted(a, c, text)[..HEADER_SIZE] == BuildHeader(c) && Encrypted(a, c, text)[HEADER_SIZE..] == Frames(a, c, 0, text);
  }
}

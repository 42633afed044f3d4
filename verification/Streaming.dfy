/** The SVSC stream format of src/core/crypto/streamingCrypto.service.ts: the frames of a plaintext, the
    decoder as a step function over arriving pieces, and exactly when it gives the plaintext back. */
module Streaming {
  import opened Chunks

  const HEADER_SIZE := 16
  const IV_LENGTH := 12
  const TAG_LENGTH := 16
  const MAX_CHUNK := 16 * 1024 * 1024

  // AES-GCM under a fixed key: (iv, additional data, text).
  datatype Aead = Aead(seal: (bytes, bytes, bytes) -> bytes, open: (bytes, bytes, bytes) -> Opened, iv: nat -> bytes)
  datatype Opened = Plain(text: bytes) | Refused

  // Opening undoes sealing, the tag is 16 bytes long, and so is every chosen iv 12.
  ghost predicate IsAead(a: Aead) {
    && (forall iv, ad, text :: |a.seal(iv, ad, text)| == |text| + TAG_LENGTH
                               && a.open(iv, ad, a.seal(iv, ad, text)) == Plain(text))
    && forall i :: |a.iv(i)| == IV_LENGTH
  }

  // ----- header -----

  const MAGIC: bytes := [0x53, 0x56, 0x53, 0x43]

  function BuildHeader(chunkSize: nat): (h: bytes)
    requires chunkSize < WORD
    ensures |h| == HEADER_SIZE
  {
    MAGIC + [1, 0] + Be32(chunkSize) + [0, 0, 0, 0, 0, 0]
  }

  datatype Problem =
    | MissingMagic | UnsupportedVersion | InvalidChunkSize
    | UnexpectedData | LengthOutOfView | FrameTooLong | Unauthentic | TrailingBytes
    | MissingHeader | MissingFinalFrame

  datatype Parsed = Header(chunkSize: nat) | Bad(problem: Problem)

  function ParseHeader(h: bytes): (r: Parsed)
    requires |h| == HEADER_SIZE
    ensures r.Header? ==> 1 <= r.chunkSize <= MAX_CHUNK
  {
    if h[..4] != MAGIC then Bad(MissingMagic)
    else if h[4] != 1 then Bad(UnsupportedVersion)
    else
      var c := ReadBe32(h[6..10]);
      if c < 1 || c > MAX_CHUNK then Bad(InvalidChunkSize) else Header(c)
  }

  // The layout: four letters, version 1, a flag byte that is not read, the chunk size most significant byte
  // first, and six bytes that are not read.
  lemma HeaderExactly(h: bytes)
    requires |h| == HEADER_SIZE
    ensures var c := h[6] as int * 0x100_0000 + h[7] as int * 0x1_0000 + h[8] as int * 0x100 + h[9] as int;
            && (ParseHeader(h).Header? <==> h[..4] == [0x53, 0x56, 0x53, 0x43] && h[4] == 1 && 1 <= c <= 0x100_0000)
            && (ParseHeader(h).Header? ==> ParseHeader(h).chunkSize == c)
  {}

  lemma HeaderRoundTrip(c: nat)
    requires c < WORD
    ensures ParseHeader(BuildHeader(c)) == if 1 <= c <= MAX_CHUNK then Header(c) else Bad(InvalidChunkSize)
    ensures BuildHeader(c)[5] == 0 && forall i :: 10 <= i < HEADER_SIZE ==> BuildHeader(c)[i] == 0
  {
    ReadBe32OfBe32(c);
    hide Be32, ReadBe32;
    var h := BuildHeader(c);
    assert h[..4] == MAGIC && h[6..10] == Be32(c);
  }

  // ----- frames -----

  function Frame(a: Aead, i: nat, text: bytes): bytes
    requires |text| < WORD
  {
    Be32(|text|) + a.iv(i) + a.seal(a.iv(i), Be32(i % WORD), text)
  }

  // The frames from index i on of what is left of a plaintext; the last one is short, possibly empty.
  function Frames(a: Aead, c: nat, i: nat, text: bytes): bytes
    requires 0 < c <= MAX_CHUNK
    decreases |text|
  {
    if |text| < c then Frame(a, i, text)
    else Frame(a, i, text[..c]) + Frames(a, c, i + 1, text[c..])
  }

  function Encrypted(a: Aead, c: nat, text: bytes): bytes
    requires 0 < c <= MAX_CHUNK
  {
    BuildHeader(c) + Frames(a, c, 0, text)
  }

  // Bytes of the frame that starts what is left.
  function FrameLength(c: nat, left: nat): (n: nat)
    ensures n >= 32
  {
    4 + IV_LENGTH + (if left < c then left else c) + TAG_LENGTH
  }

  // Positions where a frame starts or the stream ends, counted from the first frame.
  predicate Boundary(c: nat, left: nat, p: nat)
    requires c > 0
    decreases left
  {
    || p == 0
    || (p >= FrameLength(c, left) &&
        if left < c then p == FrameLength(c, left) else Boundary(c, left - c, p - FrameLength(c, left)))
  }

  lemma {:induction false} FramesShape(a: Aead, c: nat, i: nat, text: bytes)
    requires IsAead(a) && 0 < c <= MAX_CHUNK
    ensures var s, n := Frames(a, c, i, text), if |text| < c then |text| else c;
            && |s| >= FrameLength(c, |text|)
            && s[..FrameLength(c, |text|)] == Frame(a, i, text[..n])
            && s[FrameLength(c, |text|)..] == if |text| < c then [] else Frames(a, c, i + 1, text[c..])
  {
    hide Be32;
    var n := if |text| < c then |text| else c;
    assert |Frame(a, i, text[..n])| == FrameLength(c, |text|);
    if |text| < c {
      assert text[..n] == text;
    }
  }

  // ----- the decoder -----

  datatype Decoder = Decoder(chunks: seq<bytes>, headerParsed: bool, chunkSize: nat, chunkIndex: nat,
                             finalized: bool, out: bytes)

  datatype Result = Running(d: Decoder) | Failed(problem: Problem)

  const FRESH := Decoder([], false, 64 * 1024, 0, false, [])

  predicate Sane(d: Decoder) {
    d.headerParsed ==> 1 <= d.chunkSize <= MAX_CHUNK
  }

  // The decoder's buffer between two pieces.
  predicate SmallBuffer(d: Decoder) {
    if d.headerParsed then |Flat(d.chunks)| < d.chunkSize + 32 else |Flat(d.chunks)| < HEADER_SIZE
  }

  datatype FrameResult = Wait | Stop(problem: Problem) | Last(d: Decoder) | More(d: Decoder)

  // The frame at the front of the buffer, if it is complete.
  function FrameStep(a: Aead, d: Decoder): (r: FrameResult)
    requires Sane(d) && d.headerParsed && !d.finalized
    ensures r.More? ==> r.d.headerParsed && !r.d.finalized && r.d.chunkSize == d.chunkSize
                        && |Flat(r.d.chunks)| < |Flat(d.chunks)|
    ensures r.Last? ==> r.d.headerParsed && r.d.finalized && r.d.chunkSize == d.chunkSize && Flat(r.d.chunks) == []
    ensures r.Wait? ==> |Flat(d.chunks)| < d.chunkSize + 32
  {
    var buffered := |Flat(d.chunks)|;
    if buffered < 4 then Wait
    else if |d.chunks[0]| < 4 then Stop(LengthOutOfView)
    else
      var n := ReadBe32(d.chunks[0][..4]);
      var size := 4 + IV_LENGTH + n + TAG_LENGTH;
      if n > d.chunkSize then Stop(FrameTooLong)
      else if buffered < size then Wait
      else
        var frame := Flat(d.chunks)[..size];
        var answer := a.open(frame[4..4 + IV_LENGTH], Be32(d.chunkIndex % WORD), frame[4 + IV_LENGTH..]);
        if answer.Refused? then Stop(Unauthentic) else
          FlatDrained(d.chunks, size);
          var e := Decoder(Drained(d.chunks, size), true, d.chunkSize, d.chunkIndex + 1, false, d.out + answer.text);
          if n == d.chunkSize then More(e)
          else if Flat(e.chunks) == [] then Last(e.(finalized := true))
          else Stop(TrailingBytes)
  }

  // Every frame that is complete in the buffer.
  function Loop(a: Aead, d: Decoder): (r: Result)
    requires Sane(d) && d.headerParsed && !d.finalized
    ensures r.Running? ==> Sane(r.d) && r.d.headerParsed && r.d.chunkSize == d.chunkSize && SmallBuffer(r.d)
    ensures r.Running? && r.d.finalized ==> Flat(r.d.chunks) == []
    decreases |Flat(d.chunks)|
  {
    hide Flat, Drained;
    match FrameStep(a, d)
    case Wait => Running(d)
    case Stop(problem) => Failed(problem)
    case Last(e) => Running(e)
    case More(e) => Loop(a, e)
  }

  // One arriving piece.
  function Step(a: Aead, d: Decoder, piece: bytes): (r: Result)
    requires Sane(d)
    ensures r.Running? ==> Sane(r.d) && SmallBuffer(r.d)
  {
    if d.finalized then Failed(UnexpectedData) else
      var e := d.(chunks := d.chunks + [piece]);
      if d.headerParsed then Loop(a, e)
      else if |Flat(e.chunks)| < HEADER_SIZE then Running(e)
      else
        match ParseHeader(Flat(e.chunks)[..HEADER_SIZE])
        case Bad(problem) => Failed(problem)
        case Header(c) => Loop(a, e.(chunks := Drained(e.chunks, HEADER_SIZE), headerParsed := true, chunkSize := c))
  }

  datatype Verdict = Decrypted(text: bytes) | Rejected(problem: Problem)

  // The end of the stream.
  function Finish(d: Decoder): Verdict {
    if !d.headerParsed then Rejected(MissingHeader)
    else if !d.finalized then Rejected(MissingFinalFrame)
    else if Flat(d.chunks) != [] then Rejected(TrailingBytes)
    else Decrypted(d.out)
  }

  // The remaining pieces, one after the other, then the end.
  function Finished(a: Aead, r: Result, pieces: seq<bytes>): Verdict
    requires r.Running? ==> Sane(r.d)
    decreases |pieces|
  {
    match r
    case Failed(problem) => Rejected(problem)
    case Running(d) =>
      if pieces == [] then Finish(d) else Finished(a, Step(a, d, pieces[0]), pieces[1..])
  }

  function Decrypt(a: Aead, pieces: seq<bytes>): Verdict {
    Finished(a, Running(FRESH), pieces)
  }

  // ----- when the decoder gives the plaintext back -----

  // Every frame of the pieces starts with at least four bytes in one piece, and no piece follows the last.
  predicate Readable(c: nat, left: nat, ps: seq<bytes>)
    requires c > 0
    decreases left
  {
    && ps != [] && |ps[0]| >= 4
    && FrameLength(c, left) <= |Flat(ps)|
    && var rest := Drained(ps, FrameLength(c, left));
       if left < c then rest == [] else Readable(c, left - c, rest)
  }

  // Draining never had to reach past the last piece: earlier pieces end inside the current frame.
  predicate LastMatters(c: nat, left: nat, chunks: seq<bytes>) {
    chunks != [] ==> |Flat(chunks[..|chunks| - 1])| < FrameLength(c, left)
  }

  // The decoder is at the start of a frame, with text left to come from its buffer and the pieces; the
  // stream may be cut short or followed by extra bytes.
  ghost predicate AtFrame(a: Aead, c: nat, d: Decoder, text: bytes, pieces: seq<bytes>, cut: bytes, extra: bytes) {
    && 0 < c <= MAX_CHUNK
    && d.headerParsed && !d.finalized && d.chunkSize == c
    && Flat(d.chunks + pieces) + cut == Frames(a, c, d.chunkIndex, text) + extra && (cut == [] || extra == [])
    && LastMatters(c, |text|, d.chunks)
  }

  lemma FrameParts(a: Aead, i: nat, text: bytes)
    requires IsAead(a) && |text| < WORD
    ensures var f := Frame(a, i, text);
            && |f| == 4 + IV_LENGTH + |text| + TAG_LENGTH
            && ReadBe32(f[..4]) == |text|
            && a.open(f[4..4 + IV_LENGTH], Be32(i % WORD), f[4 + IV_LENGTH..]) == Plain(text)
  {
    ReadBe32OfBe32(|text|);
    hide Be32, ReadBe32;
    var f, iv := Frame(a, i, text), a.iv(i);
    assert |iv| == IV_LENGTH;
    var sealed := a.seal(iv, Be32(i % WORD), text);
    assert f[..4] == Be32(|text|) && f[4..4 + IV_LENGTH] == iv && f[4 + IV_LENGTH..] == sealed;
  }

  // A buffer that holds k bytes or more of what is left holds the first k bytes of its first frame.
  lemma StartInBuffer(a: Aead, c: nat, i: nat, text: bytes, buffer: bytes, rest: bytes, extra: bytes, k: nat)
    requires IsAead(a) && 0 < c <= MAX_CHUNK && buffer + rest == Frames(a, c, i, text) + extra
    requires k <= |buffer| && k <= FrameLength(c, |text|)
    ensures var f := Frame(a, i, text[..if |text| < c then |text| else c]);
            k <= |f| && buffer[..k] == f[..k]
  {
    FramesShape(a, c, i, text);
    var all, frame := Frames(a, c, i, text), Frame(a, i, text[..if |text| < c then |text| else c]);
    var size := FrameLength(c, |text|);
    hide *;
    SameStart(buffer, rest, all, extra, k);
    assert all[..k] == all[..size][..k];
  }

  lemma SameStart(buffer: bytes, rest: bytes, all: bytes, extra: bytes, k: nat)
    requires buffer + rest == all + extra && k <= |buffer| && k <= |all|
    ensures buffer[..k] == all[..k]
  {
    assert buffer[..k] == (buffer + rest)[..k] && all[..k] == (all + extra)[..k];
  }

  // The length field of the first frame.
  lemma LengthInBuffer(a: Aead, c: nat, i: nat, text: bytes, buffer: bytes, rest: bytes, extra: bytes)
    requires IsAead(a) && 0 < c <= MAX_CHUNK && buffer + rest == Frames(a, c, i, text) + extra && 4 <= |buffer|
    ensures ReadBe32(buffer[..4]) == if |text| < c then |text| else c
  {
    StartInBuffer(a, c, i, text, buffer, rest, extra, 4);
    FrameParts(a, i, text[..if |text| < c then |text| else c]);
    hide *;
  }

  // The whole first frame.
  lemma FrameInBuffer(a: Aead, c: nat, i: nat, text: bytes, buffer: bytes, rest: bytes, extra: bytes)
    requires IsAead(a) && 0 < c <= MAX_CHUNK && buffer + rest == Frames(a, c, i, text) + extra
    requires FrameLength(c, |text|) <= |buffer|
    ensures var frame := buffer[..FrameLength(c, |text|)];
            a.open(frame[4..4 + IV_LENGTH], Be32(i % WORD), frame[4 + IV_LENGTH..])
            == Plain(text[..if |text| < c then |text| else c])
  {
    var size := FrameLength(c, |text|);
    StartInBuffer(a, c, i, text, buffer, rest, extra, size);
    FrameParts(a, i, text[..if |text| < c then |text| else c]);
    hide Be32, ReadBe32, Frames, Frame, IsAead;
    assert buffer[..size] == Frame(a, i, text[..if |text| < c then |text| else c]);
  }

  lemma FrameGone(a: Aead, c: nat, i: nat, text: bytes, buffer: bytes, rest: bytes,
                      extra: bytes)
    requires IsAead(a) && 0 < c <= MAX_CHUNK && buffer + rest == Frames(a, c, i, text) + extra
    requires FrameLength(c, |text|) <= |buffer|
    ensures buffer[FrameLength(c, |text|)..] + rest == (if |text| < c then [] else Frames(a, c, i + 1, text[c..])) + extra
  {
    FramesShape(a, c, i, text);
    var size, all := FrameLength(c, |text|), Frames(a, c, i, text);
    hide *;
    assert buffer[size..] + rest == (buffer + rest)[size..] == (all + extra)[size..] == all[size..] + extra;
  }

  lemma HeadOfFlat(ps: seq<bytes>)
    requires ps != [] && |ps[0]| >= 4
    ensures |Flat(ps)| >= 4 && Flat(ps)[..4] == ps[0][..4]
  {}

  lemma FlatWithCut(chunks: seq<bytes>, pieces: seq<bytes>, cut: bytes)
    ensures Flat(chunks + pieces) + cut == Flat(chunks) + (Flat(pieces) + cut)
  {
    FlatAppend(chunks, pieces);
  }

  // What one frame does to the decoder.
  lemma FrameStepAtFrame(a: Aead, c: nat, d: Decoder, text: bytes, pieces: seq<bytes>,
    cut: bytes, extra: bytes)
    requires IsAead(a) && AtFrame(a, c, d, text, pieces, cut, extra)
    ensures var n, size := if |text| < c then |text| else c, FrameLength(c, |text|);
            if |Flat(d.chunks)| < 4 then FrameStep(a, d) == Wait
            else if |d.chunks[0]| < 4 then FrameStep(a, d).Stop?
            else if |Flat(d.chunks)| < size then FrameStep(a, d) == Wait
            else
              var e := Decoder(Drained(d.chunks, size), true, c, d.chunkIndex + 1, false, d.out + text[..n]);
              FrameStep(a, d) == if n == c then More(e)
                                 else if Flat(e.chunks) == [] then Last(e.(finalized := true))
                                 else Stop(TrailingBytes)
  {
    FlatNone();
    hide Be32, ReadBe32, Frames, Flat, Drained, IsAead;
    if |Flat(d.chunks)| >= 4 && |d.chunks[0]| >= 4 {
      HeadOfFlat(d.chunks);
      FlatWithCut(d.chunks, pieces, cut);
      LengthInBuffer(a, c, d.chunkIndex, text, Flat(d.chunks), Flat(pieces) + cut, extra);
      if |Flat(d.chunks)| >= FrameLength(c, |text|) {
        FrameInBuffer(a, c, d.chunkIndex, text, Flat(d.chunks), Flat(pieces) + cut, extra);
      }
    }
  }

  lemma DrainedFlat(chunks: seq<bytes>, pieces: seq<bytes>, k: nat)
    requires k <= |Flat(chunks)|
    ensures k <= |Flat(chunks + pieces)| && Drained(chunks + pieces, k) == Drained(chunks, k) + pieces
    ensures Flat(Drained(chunks, k)) + Flat(pieces) == Flat(Drained(chunks, k) + pieces)
    ensures Flat(Drained(chunks, k)) == Flat(chunks)[k..]
  {
    hide Flat, Drained;
    FlatDrained(chunks, k);
    DrainedAppend(chunks, pieces, k);
    FlatAppend(Drained(chunks, k), pieces);
  }

  // What is left behind a complete frame.
  lemma BehindFrame(a: Aead, c: nat, d: Decoder, text: bytes, pieces: seq<bytes>,
    cut: bytes, extra: bytes)
    requires IsAead(a) && AtFrame(a, c, d, text, pieces, cut, extra) && FrameLength(c, |text|) <= |Flat(d.chunks)|
    ensures var size := FrameLength(c, |text|);
            var left := Drained(d.chunks, size);
            && size <= |Flat(d.chunks + pieces)|
            && Drained(d.chunks + pieces, size) == left + pieces
            && Flat(left) + Flat(pieces) == Flat(left + pieces)
            && Flat(left + pieces) + cut == (if |text| < c then [] else Frames(a, c, d.chunkIndex + 1, text[c..])) + extra
  {
    var size := FrameLength(c, |text|);
    var left := Drained(d.chunks, size);
    hide *;
    FlatWithCut(d.chunks, pieces, cut);
    FrameGone(a, c, d.chunkIndex, text, Flat(d.chunks), Flat(pieces) + cut, extra);
    DrainedFlat(d.chunks, pieces, size);
    FlatWithCut(left, pieces, cut);
  }

  lemma BehindFrameList(c: nat, left: nat, chunks: seq<bytes>)
    requires LastMatters(c, left, chunks) && FrameLength(c, left) <= |Flat(chunks)|
    ensures var rest := Drained(chunks, FrameLength(c, left));
            |rest| <= 1 && (Flat(rest) == [] ==> rest == [])
  {
    hide Flat, Drained;
    FlatNone();
    DrainedTail(chunks, FrameLength(c, left));
  }

  // The decoder at a frame start, with an incomplete frame in its buffer, takes the next piece.
  lemma TakesNext(a: Aead, c: nat, d: Decoder, text: bytes, pieces: seq<bytes>, cut: bytes, extra: bytes)
    requires IsAead(a) && AtFrame(a, c, d, text, pieces, cut, extra) && |Flat(d.chunks)| < FrameLength(c, |text|)
    ensures pieces == [] ==> cut != []
    ensures pieces != [] ==>
              var e := d.(chunks := d.chunks + [pieces[0]]);
              && AtFrame(a, c, e, text, pieces[1..], cut, extra)
              && e.chunks + pieces[1..] == d.chunks + pieces
              && Step(a, d, pieces[0]) == Loop(a, e)
  {
    FramesShape(a, c, d.chunkIndex, text);
    hide Frames, IsAead, Loop, Flat, Drained, Frame, ParseHeader;
    if pieces == [] {
      assert d.chunks + [] == d.chunks;
      assert |Flat(d.chunks)| + |cut| >= |Frames(a, c, d.chunkIndex, text)|;
    }
    if pieces != [] {
      var e := d.(chunks := d.chunks + [pieces[0]]);
      assert e.chunks + pieces[1..] == d.chunks + pieces;
      assert e.chunks[..|e.chunks| - 1] == d.chunks;
    }
  }

  // From a frame start on, the decoder returns what is left exactly when the stream is complete, nothing
  // follows it and every length field can be read.
  lemma {:induction false} DecodesFrom(a: Aead, c: nat, d: Decoder, text: bytes, pieces: seq<bytes>,
    cut: bytes, extra: bytes)
    requires IsAead(a) && AtFrame(a, c, d, text, pieces, cut, extra)
    ensures var r := Finished(a, Loop(a, d), pieces);
            if cut == [] && extra == [] && Readable(c, |text|, d.chunks + pieces)
            then r == Decrypted(d.out + text) else r.Rejected?
    decreases |pieces|, |text|
  {
    hide IsAead, Flat, Drained, Frames, FrameStep;
    FrameStepAtFrame(a, c, d, text, pieces, cut, extra);
    FlatNone();
    var size := FrameLength(c, |text|);
    if |Flat(d.chunks)| >= 4 && |d.chunks[0]| < 4 {
      assert (d.chunks + pieces)[0] == d.chunks[0];
    } else if |Flat(d.chunks)| < size {
      TakesNext(a, c, d, text, pieces, cut, extra);
      if pieces != [] {
        DecodesFrom(a, c, d.(chunks := d.chunks + [pieces[0]]), text, pieces[1..], cut, extra);
      }
    } else {
      BehindFrame(a, c, d, text, pieces, cut, extra);
      BehindFrameList(c, |text|, d.chunks);
      assert (d.chunks + pieces)[0] == d.chunks[0];
      var left := Drained(d.chunks, size);
      if |text| < c {
        assert text[..|text|] == text;
      } else {
        var e := Decoder(left, true, c, d.chunkIndex + 1, false, d.out + text[..c]);
        assert e.out + text[c..] == d.out + text;
        assert left != [] ==> left[..|left| - 1] == [];
        DecodesFrom(a, c, e, text[c..], pieces, cut, extra);
      }
    }
  }

  lemma FlatNone()
    ensures Flat([]) == []
  {}

  // ----- the header, and the whole stream -----

  lemma HeaderInBuffer(a: Aead, c: nat, text: bytes, buffer: bytes, rest: bytes, extra: bytes)
    requires 0 < c <= MAX_CHUNK && buffer + rest == Encrypted(a, c, text) + extra && HEADER_SIZE <= |buffer|
    ensures ParseHeader(buffer[..HEADER_SIZE]) == Header(c)
    ensures buffer[HEADER_SIZE..] + rest == Frames(a, c, 0, text) + extra
  {
    HeaderRoundTrip(c);
    var h, fs := BuildHeader(c), Frames(a, c, 0, text);
    hide ParseHeader, BuildHeader, Frames;
    var all := (h + fs) + extra;
    assert buffer[..HEADER_SIZE] == (buffer + rest)[..HEADER_SIZE] == all[..HEADER_SIZE] == h;
    assert buffer[HEADER_SIZE..] + rest == (buffer + rest)[HEADER_SIZE..] == all[HEADER_SIZE..] == fs + extra;
  }

  ghost predicate BeforeHeader(a: Aead, c: nat, d: Decoder, text: bytes, pieces: seq<bytes>, cut: bytes, extra: bytes) {
    && 0 < c <= MAX_CHUNK
    && !d.headerParsed && !d.finalized && d.chunkIndex == 0 && d.out == []
    && |Flat(d.chunks)| < HEADER_SIZE
    && Flat(d.chunks + pieces) + cut == Encrypted(a, c, text) + extra && (cut == [] || extra == [])
  }

  // The piece that completes the header leaves the decoder at the first frame.
  lemma ParsesHeader(a: Aead, c: nat, d: Decoder, text: bytes, pieces: seq<bytes>, cut: bytes, extra: bytes)
    requires BeforeHeader(a, c, d, text, pieces, cut, extra) && pieces != []
    requires |Flat(d.chunks + [pieces[0]])| >= HEADER_SIZE
    ensures var chunks := Drained(d.chunks + [pieces[0]], HEADER_SIZE);
            var e := Decoder(chunks, true, c, 0, false, []);
            && Step(a, d, pieces[0]) == Loop(a, e)
            && AtFrame(a, c, e, text, pieces[1..], cut, extra)
            && HEADER_SIZE <= |Flat(d.chunks + pieces)|
            && chunks + pieces[1..] == Drained(d.chunks + pieces, HEADER_SIZE)
  {
    hide Flat, Drained, Loop, ParseHeader, Encrypted, Frames, FrameLength;
    var grown, later := d.chunks + [pieces[0]], pieces[1..];
    var chunks := Drained(grown, HEADER_SIZE);
    assert grown + later == d.chunks + pieces && grown[..|grown| - 1] == d.chunks;
    FlatWithCut(grown, later, cut);
    HeaderInBuffer(a, c, text, Flat(grown), Flat(later) + cut, extra);
    DrainedFlat(grown, later, HEADER_SIZE);
    DrainedTail(grown, HEADER_SIZE);
    FlatWithCut(chunks, later, cut);
    FlatNone();
    assert chunks != [] ==> chunks[..|chunks| - 1] == [];
  }

  lemma {:induction false} DecodesAll(a: Aead, c: nat, d: Decoder, text: bytes, pieces: seq<bytes>,
    cut: bytes, extra: bytes)
    requires IsAead(a) && BeforeHeader(a, c, d, text, pieces, cut, extra)
    ensures var r := Finished(a, Running(d), pieces);
            if cut == [] && extra == [] && HEADER_SIZE <= |Flat(d.chunks + pieces)|
               && Readable(c, |text|, Drained(d.chunks + pieces, HEADER_SIZE))
            then r == Decrypted(text) else r.Rejected?
    decreases |pieces|
  {
    hide IsAead, Flat, Drained, Frames, Encrypted, Loop, AtFrame, ParseHeader, Readable;
    if pieces == [] {
      assert d.chunks + [] == d.chunks;
    } else if |Flat(d.chunks + [pieces[0]])| < HEADER_SIZE {
      var e := d.(chunks := d.chunks + [pieces[0]]);
      assert e.chunks + pieces[1..] == d.chunks + pieces;
      DecodesAll(a, c, e, text, pieces[1..], cut, extra);
    } else {
      ParsesHeader(a, c, d, text, pieces, cut, extra);
      var e := Decoder(Drained(d.chunks + [pieces[0]], HEADER_SIZE), true, c, 0, false, []);
      assert e.out + text == text;
      DecodesFrom(a, c, e, text, pieces[1..], cut, extra);
    }
  }

  // ----- readable, said about where the pieces end -----

  lemma {:induction false} FramesTotal(a: Aead, c: nat, i: nat, text: bytes)
    requires IsAead(a) && 0 < c <= MAX_CHUNK
    ensures |Frames(a, c, i, text)| == Total(c, |text|)
    decreases |text|
  {
    FramesShape(a, c, i, text);
    if |text| >= c {
      FramesTotal(a, c, i + 1, text[c..]);
    }
  }

  function Total(c: nat, left: nat): (n: nat)
    requires c > 0
    ensures n >= FrameLength(c, left)
    decreases left
  {
    FrameLength(c, left) + if left < c then 0 else Total(c, left - c)
  }

  ghost predicate AllHold(c: nat, left: nat, ps: seq<bytes>)
    requires c > 0
  {
    forall p: nat :: Boundary(c, left, p) ==> p <= |Flat(ps)| && HeadHolds4(ps, p)
  }

  lemma {:induction false} BoundaryBelow(c: nat, left: nat, p: nat)
    requires c > 0 && Boundary(c, left, p)
    ensures p <= Total(c, left)
    decreases left
  {
    if p != 0 && left >= c {
      BoundaryBelow(c, left - c, p - FrameLength(c, left));
    }
  }

  lemma HoldsBehind(ps: seq<bytes>, size: nat, p: nat)
    requires size + p <= |Flat(ps)|
    ensures |Flat(Drained(ps, size))| == |Flat(ps)| - size
    ensures HeadHolds4(Drained(ps, size), p) <==> HeadHolds4(ps, size + p)
  {
    FlatDrained(ps, size);
    DrainedTwice(ps, size, p);
  }

  lemma {:induction false} ReadableExactly(c: nat, left: nat, ps: seq<bytes>)
    requires c > 0 && |Flat(ps)| == Total(c, left)
    ensures Readable(c, left, ps) <==> AllHold(c, left, ps)
    decreases left
  {
    hide Flat, Drained, HeadHolds4;
    var size := FrameLength(c, left);
    FlatNone();
    FirstHolds(ps);
    assert Boundary(c, left, 0) && Boundary(c, left, size);
    HoldsBehind(ps, size, 0);
    var rest := Drained(ps, size);
    if left < c {
      FirstHolds(rest);
      EndHolds(rest);
      assert forall p: nat :: Boundary(c, left, p) <==> p == 0 || p == size;
    } else {
      ReadableExactly(c, left - c, rest);
      AllHoldBehind(c, left, ps);
    }
  }

  lemma AllHoldBehind(c: nat, left: nat, ps: seq<bytes>)
    requires 0 < c <= left && |Flat(ps)| == Total(c, left)
    ensures AllHold(c, left, ps) <==> HeadHolds4(ps, 0) && AllHold(c, left - c, Drained(ps, FrameLength(c, left)))
  {
    hide Flat, Drained, HeadHolds4;
    var size := FrameLength(c, left);
    var rest := Drained(ps, size);
    assert Boundary(c, left, 0);
    FlatDrained(ps, size);
    forall p: nat | Boundary(c, left - c, p)
      ensures Boundary(c, left, size + p) && size + p <= |Flat(ps)| && p <= |Flat(rest)|
      ensures HeadHolds4(rest, p) <==> HeadHolds4(ps, size + p)
    {
      BoundaryBelow(c, left - c, p);
      HoldsBehind(ps, size, p);
    }
    if AllHold(c, left - c, rest) && HeadHolds4(ps, 0) {
      forall p: nat | Boundary(c, left, p) ensures p <= |Flat(ps)| && HeadHolds4(ps, p) {
        if p > 0 { assert Boundary(c, left - c, p - size); }
      }
    }
    if AllHold(c, left, ps) {
      forall p: nat | Boundary(c, left - c, p) ensures p <= |Flat(rest)| && HeadHolds4(rest, p) {
        assert Boundary(c, left, size + p);
      }
    }
  }

  lemma FirstHolds(ps: seq<bytes>)
    ensures HeadHolds4(ps, 0) <==> ps == [] || |ps[0]| >= 4
  {}

  lemma EndHolds(ps: seq<bytes>)
    requires Flat(ps) == []
    ensures ps == [] || |ps[0]| < 4
  {}

  /** No piece ends strictly inside the length field of a frame, and no empty piece sits where a frame starts
      or at the end of the stream. */
  ghost predicate CleanCuts(c: nat, left: nat, pieces: seq<bytes>)
    requires c > 0
  {
    forall p: nat :: Boundary(c, left, p) ==> NoCut(pieces, HEADER_SIZE + p)
  }

  lemma CleanCutsExactly(c: nat, left: nat, pieces: seq<bytes>)
    requires c > 0 && |Flat(pieces)| == HEADER_SIZE + Total(c, left)
    ensures AllHold(c, left, Drained(pieces, HEADER_SIZE)) <==> CleanCuts(c, left, pieces)
  {
    hide Flat, Drained, NoCut, Boundary, HeadHolds4;
    var rest := Drained(pieces, HEADER_SIZE);
    forall p: nat | Boundary(c, left, p)
      ensures p <= |Flat(rest)| && (HeadHolds4(rest, p) <==> NoCut(pieces, HEADER_SIZE + p))
    {
      BoundaryBelow(c, left, p);
      HoldsBehind(pieces, HEADER_SIZE, p);
      HeadHolds4Exactly(pieces, HEADER_SIZE + p);
    }
  }

  // For every plaintext, every chunk size the header allows and every way of cutting the ciphertext into
  // pieces: decryption gives the plaintext back exactly when the cuts are clean, and fails otherwise.
  lemma DecryptEncrypted(a: Aead, c: nat, text: bytes, pieces: seq<bytes>)
    requires IsAead(a) && 0 < c <= MAX_CHUNK && Flat(pieces) == Encrypted(a, c, text)
    ensures if CleanCuts(c, |text|, pieces) then Decrypt(a, pieces) == Decrypted(text) else Decrypt(a, pieces).Rejected?
  {
    hide IsAead, Finished, Readable, AllHold, CleanCuts, Frames, Drained, Flat;
    FramesTotal(a, c, 0, text);
    FlatNone();
    assert [] + pieces == pieces && Flat(pieces) + [] == Flat(pieces);
    assert Encrypted(a, c, text) + [] == Encrypted(a, c, text);
    DecodesAll(a, c, FRESH, text, pieces, [], []);
    FlatDrained(pieces, HEADER_SIZE);
    ReadableExactly(c, |text|, Drained(pieces, HEADER_SIZE));
    CleanCutsExactly(c, |text|, pieces);
  }

  // A stream that is cut short, or continued, is never decrypted, however it is cut into pieces.
  lemma OnlyWholeStreams(a: Aead, c: nat, text: bytes, pieces: seq<bytes>, cut: bytes, extra: bytes)
    requires IsAead(a) && 0 < c <= MAX_CHUNK
    requires Flat(pieces) + cut == Encrypted(a, c, text) + extra && (cut == [] || extra == []) && cut + extra != []
    ensures Decrypt(a, pieces).Rejected?
  {
    hide IsAead, Finished, Readable, Encrypted, Drained, Flat;
    FlatNone();
    assert [] + pieces == pieces;
    DecodesAll(a, c, FRESH, text, pieces, cut, extra);
  }
}

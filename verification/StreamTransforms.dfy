/** The two transforms of src/core/crypto/streamingCrypto.service.ts as objects that receive pieces. */
module StreamTransforms {
  import opened Chunks
  import opened Streaming

  // ----- what the encoder has sent after any number of pieces -----

  // The full frames of a text, and how many there are.
  function FullFrames(a: Aead, c: nat, i: nat, text: bytes): bytes
    requires 0 < c <= MAX_CHUNK
    decreases |text|
  {
    if |text| < c then [] else Frame(a, i, text[..c]) + FullFrames(a, c, i + 1, text[c..])
  }

  function FullCount(c: nat, text: bytes): nat
    requires c > 0
    decreases |text|
  {
    if |text| < c then 0 else 1 + FullCount(c, text[c..])
  }

  lemma {:induction false} FramesSplit(a: Aead, c: nat, i: nat, text: bytes)
    requires 0 < c <= MAX_CHUNK
    ensures Frames(a, c, i, text) == FullFrames(a, c, i, text) + Frame(a, i + FullCount(c, text), Remainder(c, text))
    decreases |text|
  {
    hide Frame;
    if |text| >= c {
      FramesSplit(a, c, i + 1, text[c..]);
    }
  }

  // Encoding does not depend on where the pieces end.
  lemma {:induction false} MoreText(a: Aead, c: nat, i: nat, text: bytes, more: bytes)
    requires 0 < c <= MAX_CHUNK
    ensures var rest, n := Remainder(c, text), FullCount(c, text);
            && FullFrames(a, c, i, text + more) == FullFrames(a, c, i, text) + FullFrames(a, c, i + n, rest + more)
            && FullCount(c, text + more) == n + FullCount(c, rest + more)
    decreases |text|
  {
    hide Frame;
    if |text| >= c {
      assert (text + more)[..c] == text[..c] && (text + more)[c..] == text[c..] + more;
      MoreText(a, c, i + 1, text[c..], more);
    }
  }

  // ----- draining -----

  method DrainChunks(chunks: seq<bytes>, count: nat) returns (out: bytes, left: seq<bytes>)
    requires count <= |Flat(chunks)|
    ensures out == Flat(chunks)[..count]
    ensures left == Drained(chunks, count)
  {
    out, left := [], chunks;
    FlatDrained(chunks, 0);
    while |out| < count
      invariant |out| <= count && count - |out| <= |Flat(left)|
      invariant out + Flat(left) == Flat(chunks)
      invariant Drained(left, count - |out|) == Drained(chunks, count)
      decreases count - |out|, |left|
    {
      var head, wanted := left[0], count - |out|;
      var take := if |head| < wanted then |head| else wanted;
      DrainOne(left, wanted);
      hide Flat, Drained;
      Reassociated(out, head[..take], Flat(if take == |head| then left[1..] else [head[take..]] + left[1..]));
      out := out + head[..take];
      left := if take == |head| then left[1..] else [head[take..]] + left[1..];
    }
  }

  lemma Reassociated(a: bytes, b: bytes, c: bytes)
    ensures (a + b) + c == a + (b + c)
  {}

  // One turn of the loop takes the head, or the wanted part of it.
  lemma DrainOne(chunks: seq<bytes>, wanted: nat)
    requires 0 < wanted <= |Flat(chunks)|
    ensures chunks != []
    ensures var head := chunks[0];
            var take := if |head| < wanted then |head| else wanted;
            var left := if take == |head| then chunks[1..] else [head[take..]] + chunks[1..];
            && head[..take] + Flat(left) == Flat(chunks)
            && wanted - take <= |Flat(left)|
            && Drained(left, wanted - take) == Drained(chunks, wanted)
  {
    var head := chunks[0];
    var take := if |head| < wanted then |head| else wanted;
    if take == |head| {
      assert head[..take] == head;
    } else {
      var left := [head[take..]] + chunks[1..];
      assert left[1..] == chunks[1..];
      assert head == head[..take] + head[take..];
      Reassociated(head[..take], head[take..], Flat(chunks[1..]));
    }
  }

  // ----- encoder -----

  class EncryptTransform {
    const aead: Aead
    const chunkSize: nat
    var pendingChunks: seq<bytes>
    var pendingLen: nat
    var chunkIndex: nat
    var sent: bytes
    ghost var received: bytes

    // Sent so far, and to be sent for what is pending, add up to the full frames of what was received.
    ghost predicate Balanced()
      reads this
    {
      && 0 < chunkSize <= MAX_CHUNK
      && pendingLen == |Flat(pendingChunks)|
      && sent + FullFrames(aead, chunkSize, chunkIndex, Flat(pendingChunks))
         == BuildHeader(chunkSize) + FullFrames(aead, chunkSize, 0, received)
      && Remainder(chunkSize, Flat(pendingChunks)) == Remainder(chunkSize, received)
      && chunkIndex + FullCount(chunkSize, Flat(pendingChunks)) == FullCount(chunkSize, received)
    }

    // Between two pieces less than one chunk is pending.
    ghost predicate Valid()
      reads this
    {
      Balanced() && pendingLen < chunkSize
    }

    constructor (aead: Aead, chunkSize: nat)
      requires 0 < chunkSize <= MAX_CHUNK
      ensures Valid() && received == [] && sent == BuildHeader(chunkSize)
      ensures this.aead == aead && this.chunkSize == chunkSize
    {
      this.aead, this.chunkSize := aead, chunkSize;
      pendingChunks, pendingLen, chunkIndex := [], 0, 0;
      sent, received := BuildHeader(chunkSize), [];
    }

    method EncryptChunk(plaintext: bytes) returns (frame: bytes)
      requires |plaintext| < WORD
      modifies this`chunkIndex
      ensures frame == Frame(aead, old(chunkIndex), plaintext) && chunkIndex == old(chunkIndex) + 1
    {
      var iv := aead.iv(chunkIndex);
      var ciphertext := aead.seal(iv, Be32(chunkIndex % WORD), plaintext);
      frame := Be32(|plaintext|) + iv + ciphertext;
      chunkIndex := chunkIndex + 1;
    }

    // The first chunkSize pending bytes, as one frame.
    method SendChunk()
      requires Balanced() && pendingLen >= chunkSize
      modifies this
      ensures Balanced() && received == old(received) && pendingLen == old(pendingLen) - chunkSize
    {
      hide Frame, Flat, Drained, BuildHeader;
      FlatDrained(pendingChunks, chunkSize);
      var plain, left := DrainChunks(pendingChunks, chunkSize);
      ghost var pending := Flat(pendingChunks);
      ghost var before := sent;
      pendingChunks := left;
      pendingLen := pendingLen - chunkSize;
      var frame := EncryptChunk(plain);
      sent := sent + frame;
      ghost var later := FullFrames(aead, chunkSize, chunkIndex, pending[chunkSize..]);
      assert before + (frame + later) == sent + later;
    }

    method Transform(chunk: bytes)
      requires Valid()
      modifies this
      ensures Valid() && received == old(received) + chunk
    {
      MoreText(aead, chunkSize, 0, received, chunk);
      RemainderMore(chunkSize, received, chunk);
      ghost var header, full := BuildHeader(chunkSize), FullFrames(aead, chunkSize, 0, received);
      ghost var more := FullFrames(aead, chunkSize, chunkIndex, Flat(pendingChunks) + chunk);
      assert sent == header + full && Flat(pendingChunks) == Remainder(chunkSize, received)
             && chunkIndex == FullCount(chunkSize, received) by {
        hide Frame, Flat, BuildHeader;
      }
      hide Frame, Flat, Drained, BuildHeader, FullFrames, Remainder, FullCount;
      assert (header + full) + more == header + (full + more);
      FlatPush(pendingChunks, chunk);
      received := received + chunk;
      pendingChunks := pendingChunks + [chunk];
      pendingLen := pendingLen + |chunk|;
      while pendingLen >= chunkSize
        invariant Balanced() && received == old(received) + chunk
      {
        SendChunk();
      }
    }

    // What was sent is the encrypted form of all that was received.
    method Flush()
      requires Valid()
      modifies this
      ensures received == old(received)
      ensures sent == Encrypted(aead, chunkSize, received)
      ensures pendingLen == 0 && pendingChunks == []
    {
      hide Frame, Flat, Drained, BuildHeader;
      FramesSplit(aead, chunkSize, 0, received);
      var remaining := [];
      if pendingLen > 0 {
        var left;
        remaining, left := DrainChunks(pendingChunks, pendingLen);
      }
      assert remaining == Flat(pendingChunks);
      assert sent == BuildHeader(chunkSize) + FullFrames(aead, chunkSize, 0, received);
      var frame := EncryptChunk(remaining);
      sent := sent + frame;
      pendingChunks, pendingLen := [], 0;
    }
  }

  // ----- decoder -----

  class DecryptTransform {
    const aead: Aead
    var bufferChunks: seq<bytes>
    var bufferLen: nat
    var headerParsed: bool
    var chunkSize: nat
    var chunkIndex: nat
    var finalized: bool
    var out: bytes

    ghost function State(): Decoder
      reads this
    {
      Decoder(bufferChunks, headerParsed, chunkSize, chunkIndex, finalized, out)
    }

    ghost predicate Valid()
      reads this
    {
      Sane(State()) && bufferLen == |Flat(bufferChunks)|
    }

    constructor (aead: Aead)
      ensures Valid() && this.aead == aead && State() == FRESH
    {
      this.aead := aead;
      bufferChunks, bufferLen, headerParsed, chunkSize, chunkIndex, finalized, out := [], 0, false, 64 * 1024, 0, false, [];
    }

    method Take(n: nat) returns (bytesTaken: bytes)
      requires Valid() && n <= bufferLen
      modifies this`bufferChunks, this`bufferLen
      ensures Valid() && bytesTaken == Flat(old(bufferChunks))[..n] && bufferChunks == Drained(old(bufferChunks), n)
    {
      FlatDrained(bufferChunks, n);
      var left;
      bytesTaken, left := DrainChunks(bufferChunks, n);
      bufferChunks := left;
      bufferLen := bufferLen - n;
    }

    // One frame of the loop; no error and more to do, or the loop's end.
    method TakeFrame() returns (r: FrameResult)
      requires Valid() && headerParsed && !finalized
      modifies this
      ensures Valid() && r == FrameStep(aead, old(State()))
      ensures match r
              case Wait => State() == old(State())
              case Stop(_) => true
              case Last(d) => State() == d
              case More(d) => State() == d
    {
      ghost var before := State();
      if bufferLen < 4 {
        return Wait;
      }
      if |bufferChunks[0]| < 4 {
        return Stop(LengthOutOfView);
      }
      var plaintextLen := ReadBe32(bufferChunks[0][..4]);
      if plaintextLen > chunkSize {
        return Stop(FrameTooLong);
      }
      var frameBodyLen := 4 + IV_LENGTH + plaintextLen + TAG_LENGTH;
      if bufferLen < frameBodyLen {
        return Wait;
      }
      var frame := Take(frameBodyLen);
      var plaintext := aead.open(frame[4..4 + IV_LENGTH], Be32(chunkIndex % WORD), frame[4 + IV_LENGTH..]);
      if plaintext.Refused? {
        return Stop(Unauthentic);
      }
      hide Flat, Drained;
      chunkIndex := chunkIndex + 1;
      out := out + plaintext.text;
      if plaintextLen < chunkSize {
        if bufferLen > 0 {
          return Stop(TrailingBytes);
        }
        finalized := true;
        return Last(Decoder(bufferChunks, headerParsed, chunkSize, chunkIndex, finalized, out));
      }
      return More(Decoder(bufferChunks, headerParsed, chunkSize, chunkIndex, finalized, out));
    }

    method Transform(chunk: bytes) returns (r: Result)
      requires Valid()
      modifies this
      ensures r == Step(aead, old(State()), chunk)
      ensures r.Running? ==> Valid() && State() == r.d && SmallBuffer(State())
    {
      hide Flat, Drained, FrameStep, ParseHeader;
      if finalized {
        return Failed(UnexpectedData);
      }
      FlatPush(bufferChunks, chunk);
      bufferChunks := bufferChunks + [chunk];
      bufferLen := bufferLen + |chunk|;
      if !headerParsed {
        if bufferLen < HEADER_SIZE {
          return Running(Decoder(bufferChunks, headerParsed, chunkSize, chunkIndex, finalized, out));
        }
        var header := Take(HEADER_SIZE);
        var parsed := ParseHeader(header);
        if parsed.Bad? {
          return Failed(parsed.problem);
        }
        chunkSize := parsed.chunkSize;
        headerParsed := true;
      }
      ghost var start := State();
      while true
        invariant Valid() && headerParsed && !finalized
        invariant Loop(aead, State()) == Loop(aead, start)
        decreases bufferLen
      {
        var step := TakeFrame();
        match step
        case Wait =>
          return Running(Decoder(bufferChunks, headerParsed, chunkSize, chunkIndex, finalized, out));
        case Stop(problem) =>
          return Failed(problem);
        case Last(d) =>
          return Running(d);
        case More(d) =>
      }
    }

    method Flush() returns (r: Verdict)
      requires Valid()
      ensures r == Finish(State())
    {
      if !headerParsed {
        return Rejected(MissingHeader);
      }
      if !finalized {
        return Rejected(MissingFinalFrame);
      }
      if bufferLen > 0 {
        return Rejected(TrailingBytes);
      }
      return Decrypted(out);
    }
  }
}

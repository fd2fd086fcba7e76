/** What the decoder makes of an honest signed stream that is cut off after any number of bytes. */
module ChunkedTruncation {
  import opened ByteStrings
  import opened ChunkedDecoder
  import opened ChunkedEncoding

  /** Cut positions in the trailer lines that read as a clean end: all but the line starts. */
  predicate CleanTrailerCut(trailers: seq<Bytes>, n: nat) {
    if trailers == [] then n > 0
    else
      var line := |trailers[0]| + |CRLF|;
      if n < line then n > 0 else CleanTrailerCut(trailers[1..], n - line)
  }

  /** Cut positions in the stream that read as a clean end: inside a header line, right behind
      the header or the body of a data chunk, and inside or behind the trailer lines. */
  predicate CleanCut(sign: Signer, chunks: seq<Bytes>, trailers: seq<Bytes>, prevSig: Bytes, n: nat)
    decreases |chunks|
  {
    if chunks == [] then
      var header := |HeaderText(0, sign(prevSig, []))| + |CRLF|;
      if n < header then n > 0 else CleanTrailerCut(trailers, n - header)
    else
      var signature := sign(prevSig, chunks[0]);
      var header := |HeaderText(|chunks[0]|, signature)| + |CRLF|;
      var body := header + |chunks[0]|;
      if n < header then n > 0
      else if n < body + |CRLF| then n == header || n == body
      else CleanCut(sign, chunks[1..], trailers, signature, n - body - |CRLF|)
  }

  /** Where the frame of the first chunk ends. */
  function FrameLength(sign: Signer, c: Bytes, prevSig: Bytes): nat {
    |HeaderText(|c|, sign(prevSig, c)) + CRLF| + |c| + |CRLF|
  }

  /** The bodies of the frames that lie whole before the cut. */
  function Arrived(sign: Signer, chunks: seq<Bytes>, prevSig: Bytes, n: nat): Bytes
    decreases |chunks|
  {
    if chunks == [] || n < FrameLength(sign, chunks[0], prevSig) then []
    else
      chunks[0] + Arrived(sign, chunks[1..], sign(prevSig, chunks[0]), n - FrameLength(sign, chunks[0], prevSig))
  }

  lemma {:induction false} ArrivedIsPrefix(sign: Signer, chunks: seq<Bytes>, prevSig: Bytes, n: nat)
    ensures Arrived(sign, chunks, prevSig, n) <= Concat(chunks)
    decreases |chunks|
  {
    if chunks != [] && n >= FrameLength(sign, chunks[0], prevSig) {
      ArrivedIsPrefix(sign, chunks[1..], sign(prevSig, chunks[0]), n - FrameLength(sign, chunks[0], prevSig));
    }
  }

  // ----- The bytes received before the cut -----

  function ReceivedTrailers(trailers: seq<Bytes>, n: nat): Bytes
    requires n <= |TrailerLines(trailers)|
  {
    if trailers == [] then CRLF[..n]
    else
      var line := trailers[0] + CRLF;
      if n < |line| then line[..n] else line + ReceivedTrailers(trailers[1..], n - |line|)
  }

  function Received(sign: Signer, chunks: seq<Bytes>, trailers: seq<Bytes>, prevSig: Bytes, n: nat): Bytes
    requires n <= |Encode(sign, chunks, trailers, prevSig)|
    decreases |chunks|
  {
    if chunks == [] then
      var header := HeaderText(0, sign(prevSig, [])) + CRLF;
      if n < |header| then header[..n] else header + ReceivedTrailers(trailers, n - |header|)
    else
      var c, signature := chunks[0], sign(prevSig, chunks[0]);
      var header := HeaderText(|c|, signature) + CRLF;
      if n < |header| then header[..n]
      else if n < |header| + |c| + |CRLF| then header + (c + CRLF)[..n - |header|]
      else header + (c + (CRLF + Received(sign, chunks[1..], trailers, signature, n - |header| - |c| - |CRLF|)))
  }

  lemma TakeAcross(head: Bytes, rest: Bytes, n: nat)
    requires n <= |head| + |rest|
    ensures (head + rest)[..n] == if n < |head| then head[..n] else head + rest[..n - |head|]
  {
  }

  lemma {:induction false} ReceivedTrailersIsPrefix(trailers: seq<Bytes>, n: nat)
    requires n <= |TrailerLines(trailers)|
    ensures ReceivedTrailers(trailers, n) == TrailerLines(trailers)[..n]
  {
    if trailers != [] {
      var line := trailers[0] + CRLF;
      TakeAcross(line, TrailerLines(trailers[1..]), n);
      if n >= |line| {
        ReceivedTrailersIsPrefix(trailers[1..], n - |line|);
      }
    }
  }

  lemma TakeFrame(header: Bytes, c: Bytes, rest: Bytes, n: nat)
    requires |header| <= n <= |header| + |c| + |CRLF| + |rest|
    ensures (header + (c + (CRLF + rest)))[..n] ==
            if n < |header| + |c| + |CRLF| then header + (c + CRLF)[..n - |header|]
            else header + (c + (CRLF + rest[..n - |header| - |c| - |CRLF|]))
  {
    TakeAcross(header, c + (CRLF + rest), n);
    assert c + (CRLF + rest) == c + CRLF + rest;
    TakeAcross(c + CRLF, rest, n - |header|);
    if n >= |header| + |c| + |CRLF| {
      var tail := rest[..n - |header| - |c| - |CRLF|];
      assert c + CRLF + tail == c + (CRLF + tail);
    }
  }

  /** They are the first `n` bytes of the stream. */
  lemma {:induction false} ReceivedIsPrefix(
    sign: Signer, chunks: seq<Bytes>, trailers: seq<Bytes>, prevSig: Bytes, n: nat)
    requires n <= |Encode(sign, chunks, trailers, prevSig)|
    ensures Received(sign, chunks, trailers, prevSig, n) == Encode(sign, chunks, trailers, prevSig)[..n]
    decreases |chunks|
  {
    if chunks == [] {
      var header := HeaderText(0, sign(prevSig, [])) + CRLF;
      TakeAcross(header, TrailerLines(trailers), n);
      if n >= |header| {
        ReceivedTrailersIsPrefix(trailers, n - |header|);
      }
    } else {
      var c, signature := chunks[0], sign(prevSig, chunks[0]);
      var header := HeaderText(|c|, signature) + CRLF;
      var rest := Encode(sign, chunks[1..], trailers, signature);
      if n < |header| {
        TakeAcross(header, c + (CRLF + rest), n);
      } else {
        TakeFrame(header, c, rest, n);
        if n >= |header| + |c| + |CRLF| {
          ReceivedIsPrefix(sign, chunks[1..], trailers, signature, n - |header| - |c| - |CRLF|);
        }
      }
    }
  }

  // ----- Decoding them -----

  lemma CutInLine(text: Bytes, n: nat)
    requires Lacks(text, LF) && n < |text| + |CRLF|
    ensures ReadLine((text + CRLF)[..n]) == Cut((text + CRLF)[..n])
  {
    var cut := (text + CRLF)[..n];
    assert forall i | 0 <= i < n :: cut[i] == if i < |text| then text[i] else CR;
  }

  lemma {:induction false} SkipReceived(trailers: seq<Bytes>, n: nat)
    requires (forall t | t in trailers :: TrailerText(t)) && n <= |TrailerLines(trailers)|
    ensures SkipTrailers(ReceivedTrailers(trailers, n)) ==
            if n == |TrailerLines(trailers)| then Discarded([])
            else TrailerError(if CleanTrailerCut(trailers, n) then EOF else UnexpectedEOF)
  {
    if trailers == [] {
      SkipEmptyLine(n);
    } else {
      var t := trailers[0];
      assert t in trailers && TrailerText(t);
      var line := t + CRLF;
      if n < |line| {
        SkipCutLine(t, n);
      } else {
        SkipReceived(trailers[1..], n - |line|);
        TrailerSkips(t, ReceivedTrailers(trailers[1..], n - |line|));
      }
    }
  }

  lemma SkipCutLine(t: Bytes, n: nat)
    requires Lacks(t, LF) && n < |t + CRLF|
    ensures SkipTrailers((t + CRLF)[..n]) == TrailerError(if n > 0 then EOF else UnexpectedEOF)
  {
    CutInLine(t, n);
  }

  lemma SkipEmptyLine(n: nat)
    requires n <= |CRLF|
    ensures SkipTrailers(CRLF[..n]) ==
            if n == |CRLF| then Discarded([]) else TrailerError(if n > 0 then EOF else UnexpectedEOF)
  {
    var none: Bytes := [];
    assert none + CRLF == CRLF && CRLF + none == CRLF && CRLF[..|CRLF|] == CRLF;
    if n < |CRLF| {
      CutInLine(none, n);
    } else {
      LineReads(none, none);
    }
  }

  lemma HeaderCut(sign: Signer, size: nat, signature: Bytes, prevSig: Bytes, n: nat)
    requires signature != [] && Lacks(signature, LF) && n < |HeaderText(size, signature) + CRLF|
    ensures LoadChunk(sign, (HeaderText(size, signature) + CRLF)[..n], prevSig) ==
            Fail(if n > 0 then EOF else UnexpectedEOF)
  {
    HeaderParses(size, signature);
    CutInLine(HeaderText(size, signature), n);
  }

  /** A cut before the next chunk begins is a failed read, clean right at either end of the body. */
  lemma BodyCut(sign: Signer, body: Bytes, prevSig: Bytes, n: nat)
    requires body != [] && n < |body| + |CRLF|
    ensures LoadBody(sign, |body|, sign(prevSig, body), (body + CRLF)[..n], prevSig) ==
            Fail(if n == 0 || n == |body| then EOF else UnexpectedEOF)
  {
  }

  // ----- Draining them, for any loader that handles frames and their cuts -----

  /** What a loader makes of each way a frame can be cut, and of whole frames. */
  ghost predicate InHeader(load: Loader, size: nat, signature: Bytes, prevSig: Bytes, n: nat) {
    n < |HeaderText(size, signature) + CRLF| ==>
      load((HeaderText(size, signature) + CRLF)[..n], prevSig) == Fail(if n > 0 then EOF else UnexpectedEOF)
  }

  ghost predicate InBody(load: Loader, sign: Signer, body: Bytes, prevSig: Bytes, n: nat) {
    1 <= |body| <= MAX_CHUNK_BYTES && n < |body| + |CRLF| ==>
      load(HeaderText(|body|, sign(prevSig, body)) + CRLF + (body + CRLF)[..n], prevSig) ==
      Fail(if n == 0 || n == |body| then EOF else UnexpectedEOF)
  }

  ghost predicate PastBody(load: Loader, sign: Signer, body: Bytes, rest: Bytes, prevSig: Bytes) {
    1 <= |body| <= MAX_CHUNK_BYTES ==>
      load(HeaderText(|body|, sign(prevSig, body)) + CRLF + (body + (CRLF + rest)), prevSig) ==
      Chunk(body, sign(prevSig, body), rest)
  }

  ghost predicate InFinal(load: Loader, sign: Signer, trailers: seq<Bytes>, prevSig: Bytes, n: nat) {
    n <= |TrailerLines(trailers)| && (forall t | t in trailers :: TrailerText(t)) ==>
      load(HeaderText(0, sign(prevSig, [])) + CRLF + ReceivedTrailers(trailers, n), prevSig) ==
      if n == |TrailerLines(trailers)| then Final(sign(prevSig, []), [])
      else Fail(if CleanTrailerCut(trailers, n) then EOF else UnexpectedEOF)
  }

  ghost predicate Frames(load: Loader, sign: Signer) {
    && Shrinks(load)
    && (forall size, body, prevSig, n :: InHeader(load, size, sign(prevSig, body), prevSig, n))
    && (forall body, prevSig, n :: InBody(load, sign, body, prevSig, n))
    && (forall body, rest, prevSig :: PastBody(load, sign, body, rest, prevSig))
    && (forall trailers, prevSig, n :: InFinal(load, sign, trailers, prevSig, n))
  }

  lemma {:induction false} WholeTrailersEndCleanly(trailers: seq<Bytes>)
    ensures CleanTrailerCut(trailers, |TrailerLines(trailers)|)
  {
    if trailers != [] {
      WholeTrailersEndCleanly(trailers[1..]);
    }
  }

  /** What is decoded, and the end it is decoded with. */
  function Outcome(sign: Signer, chunks: seq<Bytes>, trailers: seq<Bytes>, seed: Bytes, n: nat): Decoded {
    Decoded(Arrived(sign, chunks, seed, n),
            if CleanCut(sign, chunks, trailers, seed, n) then EOF else UnexpectedEOF)
  }

  function Behind(c: Bytes, d: Decoded): Decoded {
    Decoded(c + d.data, d.end)
  }

  lemma OutcomeBehindFrame(sign: Signer, chunks: seq<Bytes>, trailers: seq<Bytes>, seed: Bytes, n: nat)
    requires chunks != [] && FrameLength(sign, chunks[0], seed) <= n
    ensures Outcome(sign, chunks, trailers, seed, n) ==
            Behind(chunks[0], Outcome(sign, chunks[1..], trailers, sign(seed, chunks[0]),
                                      n - FrameLength(sign, chunks[0], seed)))
  {
  }

  lemma DrainFails(load: Loader, src: Bytes, prevSig: Bytes, e: Error)
    requires Shrinks(load) && load(src, prevSig) == Fail(e)
    ensures Drain(load, src, prevSig) == Decoded([], e)
  {
  }

  lemma DrainTrailers(load: Loader, sign: Signer, trailers: seq<Bytes>, seed: Bytes, n: nat)
    requires Frames(load, sign) && (forall t | t in trailers :: TrailerText(t)) && n <= |TrailerLines(trailers)|
    ensures Drain(load, HeaderText(0, sign(seed, [])) + CRLF + ReceivedTrailers(trailers, n), seed) ==
            Decoded([], if CleanTrailerCut(trailers, n) then EOF else UnexpectedEOF)
  {
    assert InFinal(load, sign, trailers, seed, n);
    if n == |TrailerLines(trailers)| {
      WholeTrailersEndCleanly(trailers);
    }
  }

  lemma DrainHeader(load: Loader, sign: Signer, size: nat, body: Bytes, seed: Bytes, n: nat)
    requires Frames(load, sign) && n < |HeaderText(size, sign(seed, body)) + CRLF|
    ensures Drain(load, (HeaderText(size, sign(seed, body)) + CRLF)[..n], seed) ==
            Decoded([], if n > 0 then EOF else UnexpectedEOF)
  {
    assert InHeader(load, size, sign(seed, body), seed, n);
    DrainFails(load, (HeaderText(size, sign(seed, body)) + CRLF)[..n], seed, if n > 0 then EOF else UnexpectedEOF);
  }

  lemma DrainFinal(load: Loader, sign: Signer, trailers: seq<Bytes>, seed: Bytes, n: nat)
    requires Frames(load, sign) && forall t | t in trailers :: TrailerText(t)
    requires n <= |Encode(sign, [], trailers, seed)|
    ensures Drain(load, Received(sign, [], trailers, seed, n), seed) == Outcome(sign, [], trailers, seed, n)
  {
    var header := HeaderText(0, sign(seed, [])) + CRLF;
    if n < |header| {
      DrainHeader(load, sign, 0, [], seed, n);
    } else {
      DrainTrailers(load, sign, trailers, seed, n - |header|);
    }
  }

  lemma DrainCutFrame(
    load: Loader, sign: Signer, chunks: seq<Bytes>, trailers: seq<Bytes>, seed: Bytes, n: nat)
    requires Frames(load, sign) && chunks != [] && 1 <= |chunks[0]| <= MAX_CHUNK_BYTES
    requires n <= |Encode(sign, chunks, trailers, seed)| && n < FrameLength(sign, chunks[0], seed)
    ensures Drain(load, Received(sign, chunks, trailers, seed, n), seed) == Outcome(sign, chunks, trailers, seed, n)
  {
    var c, signature := chunks[0], sign(seed, chunks[0]);
    var header := HeaderText(|c|, signature) + CRLF;
    if n < |header| {
      DrainHeader(load, sign, |c|, c, seed, n);
    } else {
      assert InBody(load, sign, c, seed, n - |header|);
    }
  }

  lemma DrainWholeFrame(
    load: Loader, sign: Signer, chunks: seq<Bytes>, trailers: seq<Bytes>, seed: Bytes, n: nat)
    requires Frames(load, sign) && chunks != [] && 1 <= |chunks[0]| <= MAX_CHUNK_BYTES
    requires FrameLength(sign, chunks[0], seed) <= n <= |Encode(sign, chunks, trailers, seed)|
    ensures var m, signature := n - FrameLength(sign, chunks[0], seed), sign(seed, chunks[0]);
            && m <= |Encode(sign, chunks[1..], trailers, signature)|
            && Drain(load, Received(sign, chunks, trailers, seed, n), seed) ==
               Behind(chunks[0], Drain(load, Received(sign, chunks[1..], trailers, signature, m), signature))
  {
    var c, signature := chunks[0], sign(seed, chunks[0]);
    var m := n - FrameLength(sign, c, seed);
    assert PastBody(load, sign, c, Received(sign, chunks[1..], trailers, signature, m), seed);
  }

  lemma {:induction false} DrainReceived(
    load: Loader, sign: Signer, chunks: seq<Bytes>, trailers: seq<Bytes>, seed: Bytes, n: nat)
    requires Frames(load, sign)
    requires forall c | c in chunks :: 1 <= |c| <= MAX_CHUNK_BYTES
    requires forall t | t in trailers :: TrailerText(t)
    requires n <= |Encode(sign, chunks, trailers, seed)|
    ensures Drain(load, Received(sign, chunks, trailers, seed, n), seed) == Outcome(sign, chunks, trailers, seed, n)
    decreases |chunks|
  {
    if chunks == [] {
      DrainFinal(load, sign, trailers, seed, n);
    } else if n < FrameLength(sign, chunks[0], seed) {
      assert chunks[0] in chunks;
      DrainCutFrame(load, sign, chunks, trailers, seed, n);
    } else {
      var c, m := chunks[0], n - FrameLength(sign, chunks[0], seed);
      assert c in chunks;
      DrainWholeFrame(load, sign, chunks, trailers, seed, n);
      DrainReceived(load, sign, chunks[1..], trailers, sign(seed, c), m);
      OutcomeBehindFrame(sign, chunks, trailers, seed, n);
    }
  }

  // ----- The decoder's loader -----

  lemma ChunkLoaderInHeader(sign: Signer, size: nat, signature: Bytes, prevSig: Bytes, n: nat)
    requires signature != [] && Lacks(signature, LF)
    ensures InHeader(ChunkLoader(sign), size, signature, prevSig, n)
  {
    if n < |HeaderText(size, signature) + CRLF| {
      HeaderCut(sign, size, signature, prevSig, n);
    }
  }

  lemma ChunkLoaderInBody(sign: Signer, body: Bytes, prevSig: Bytes, n: nat)
    requires OneLine(sign)
    ensures InBody(ChunkLoader(sign), sign, body, prevSig, n)
  {
    if 1 <= |body| <= MAX_CHUNK_BYTES && n < |body| + |CRLF| {
      HeaderLoads(sign, |body|, sign(prevSig, body), (body + CRLF)[..n], prevSig);
      BodyCut(sign, body, prevSig, n);
    }
  }

  lemma ChunkLoaderPastBody(sign: Signer, body: Bytes, rest: Bytes, prevSig: Bytes)
    requires OneLine(sign)
    ensures PastBody(ChunkLoader(sign), sign, body, rest, prevSig)
  {
    if 1 <= |body| <= MAX_CHUNK_BYTES {
      HeaderLoads(sign, |body|, sign(prevSig, body), body + (CRLF + rest), prevSig);
      BodyLoads(sign, body, rest, prevSig);
    }
  }

  lemma ChunkLoaderInFinal(sign: Signer, trailers: seq<Bytes>, prevSig: Bytes, n: nat)
    requires OneLine(sign)
    ensures InFinal(ChunkLoader(sign), sign, trailers, prevSig, n)
  {
    if n <= |TrailerLines(trailers)| && forall t | t in trailers :: TrailerText(t) {
      HeaderLoads(sign, 0, sign(prevSig, []), ReceivedTrailers(trailers, n), prevSig);
      SkipReceived(trailers, n);
    }
  }

  lemma ChunkLoaderFrames(sign: Signer)
    requires OneLine(sign)
    ensures Frames(ChunkLoader(sign), sign)
  {
    var load := ChunkLoader(sign);
    ChunkLoaderLoads(sign);
    forall size, body, prevSig, n ensures InHeader(load, size, sign(prevSig, body), prevSig, n) {
      ChunkLoaderInHeader(sign, size, sign(prevSig, body), prevSig, n);
    }
    forall body, prevSig, n ensures InBody(load, sign, body, prevSig, n) {
      ChunkLoaderInBody(sign, body, prevSig, n);
    }
    forall body, rest, prevSig ensures PastBody(load, sign, body, rest, prevSig) {
      ChunkLoaderPastBody(sign, body, rest, prevSig);
    }
    forall trailers, prevSig, n ensures InFinal(load, sign, trailers, prevSig, n) {
      ChunkLoaderInFinal(sign, trailers, prevSig, n);
    }
  }

  /** For every honest stream and every cut position: what is decoded are the bodies of the frames
      that lie whole before the cut, a prefix of the original bytes, and the end is clean exactly
      at the listed positions, unexpected anywhere else. */
  lemma CutStream(sign: Signer, chunks: seq<Bytes>, trailers: seq<Bytes>, seed: Bytes, n: nat)
    requires OneLine(sign)
    requires forall c | c in chunks :: 1 <= |c| <= MAX_CHUNK_BYTES
    requires forall t | t in trailers :: TrailerText(t)
    requires n <= |Encode(sign, chunks, trailers, seed)|
    ensures var d := Decode(sign, Encode(sign, chunks, trailers, seed)[..n], seed);
            && d.data == Arrived(sign, chunks, seed, n) <= Concat(chunks)
            && d.end == if CleanCut(sign, chunks, trailers, seed, n) then EOF else UnexpectedEOF
  {
    ReceivedIsPrefix(sign, chunks, trailers, seed, n);
    ArrivedIsPrefix(sign, chunks, seed, n);
    ChunkLoaderFrames(sign);
    ChunkLoaderLoads(sign);
    DrainReceived(ChunkLoader(sign), sign, chunks, trailers, seed, n);
    DrainIsDecode(ChunkLoader(sign), sign, Encode(sign, chunks, trailers, seed)[..n], seed);
  }
}

/** The encoder side of signed chunked uploads, its round trip through the decoder, and when
    the decoder reports a clean end. */
module ChunkedEncoding {
  import opened ByteStrings
  import opened ChunkedDecoder
  import opened Wrappers
  import UriEncoding

  function HexOf(n: nat): (s: Bytes)
    ensures s != [] && Lacks(s, SEMICOLON) && Lacks(s, LF)
  {
    if n < 16 then [UriEncoding.HexDigit(n)] else HexOf(n / 16) + [UriEncoding.HexDigit(n % 16)]
  }

  lemma {:induction false} HexRoundTrip(n: nat)
    ensures HexNumber(HexOf(n)) == Some(n)
  {
    if n >= 16 {
      HexRoundTrip(n / 16);
      var s := HexOf(n);
      assert s[..|s| - 1] == HexOf(n / 16);
    }
  }

  /** Signatures as the signer prints them: some text on one line. */
  ghost predicate OneLine(sign: Signer) {
    forall prevSig, body :: sign(prevSig, body) != [] && Lacks(sign(prevSig, body), LF)
  }

  function HeaderText(size: nat, signature: Bytes): Bytes {
    HexOf(size) + [SEMICOLON] + (SIGNATURE_FIELD + signature)
  }

  predicate TrailerText(t: Bytes) {
    t != [] && Lacks(t, LF)
  }

  function TrailerLines(trailers: seq<Bytes>): Bytes {
    if trailers == [] then CRLF else trailers[0] + CRLF + TrailerLines(trailers[1..])
  }

  /** Data chunks, then the final empty chunk with its trailer lines. */
  function Encode(sign: Signer, chunks: seq<Bytes>, trailers: seq<Bytes>, prevSig: Bytes): Bytes
    decreases |chunks|
  {
    if chunks == [] then HeaderText(0, sign(prevSig, [])) + CRLF + TrailerLines(trailers)
    else
      var signature := sign(prevSig, chunks[0]);
      HeaderText(|chunks[0]|, signature) + CRLF + (chunks[0] + (CRLF + Encode(sign, chunks[1..], trailers, signature)))
  }

  function Concat(chunks: seq<Bytes>): Bytes {
    if chunks == [] then [] else chunks[0] + Concat(chunks[1..])
  }

  // ----- Round trip -----

  lemma IndexByteIs(s: Bytes, c: Byte, i: nat)
    requires i < |s| && s[i] == c && Lacks(s[..i], c)
    ensures IndexByte(s, c) == i
  {
    assert forall k | 0 <= k < i :: s[k] == s[..i][k];
    assert forall j | i < j <= |s| :: s[..j][i] == s[i];
  }

  lemma LineReads(text: Bytes, rest: Bytes)
    requires Lacks(text, LF)
    ensures ReadLine(text + CRLF + rest) == Line(text + CRLF, rest)
    ensures EndsInCrLf(text + CRLF) && (text + CRLF)[..|text + CRLF| - 2] == text
  {
    var s := text + CRLF + rest;
    assert s[..|text| + 1] == text + [CR];
    IndexByteIs(s, LF, |text| + 1);
    assert s[..|text| + 2] == text + CRLF && s[|text| + 2..] == rest;
  }

  lemma HeaderParses(size: nat, signature: Bytes)
    requires signature != [] && Lacks(signature, LF)
    ensures ParseChunkHeader(HeaderText(size, signature)) == Some(Header(HexOf(size), signature))
    ensures Lacks(HeaderText(size, signature), LF)
  {
    var hex, field := HexOf(size), SIGNATURE_FIELD + signature;
    var line := HeaderText(size, signature);
    assert line[..|hex|] == hex;
    IndexByteIs(line, SEMICOLON, |hex|);
    assert line[|hex| + 1..] == field;
    assert field[|SIGNATURE_FIELD|..] == signature;
  }

  lemma {:induction false} TrailersSkip(trailers: seq<Bytes>)
    requires forall t | t in trailers :: TrailerText(t)
    ensures SkipTrailers(TrailerLines(trailers)) == Discarded([])
  {
    if trailers == [] {
      var none: Bytes := [];
      assert none + CRLF == CRLF;
      assert CRLF + none == CRLF;
      LineReads(none, none);
    } else {
      TrailersSkip(trailers[1..]);
      TrailerSkips(trailers[0], TrailerLines(trailers[1..]));
    }
  }

  lemma TrailerSkips(t: Bytes, rest: Bytes)
    requires TrailerText(t)
    ensures SkipTrailers(t + CRLF + rest) == SkipTrailers(rest)
  {
    LineReads(t, rest);
    assert |t + CRLF| > |CRLF|;
  }

  /** A well-formed header followed by anything hands its size and signature to the body. */
  lemma HeaderLoads(sign: Signer, size: nat, signature: Bytes, rest: Bytes, prevSig: Bytes)
    requires size <= MAX_CHUNK_BYTES && signature != [] && Lacks(signature, LF)
    ensures LoadChunk(sign, HeaderText(size, signature) + CRLF + rest, prevSig) ==
            LoadBody(sign, size, signature, rest, prevSig)
  {
    var text := HeaderText(size, signature);
    HeaderParses(size, signature);
    LineReads(text, rest);
    HexRoundTrip(size);
  }

  lemma BodyLoads(sign: Signer, body: Bytes, rest: Bytes, prevSig: Bytes)
    requires body != []
    ensures LoadBody(sign, |body|, sign(prevSig, body), body + (CRLF + rest), prevSig) ==
            Chunk(body, sign(prevSig, body), rest)
  {
    var src := body + (CRLF + rest);
    assert src[..|body|] == body && src[|body|..] == CRLF + rest;
    assert (CRLF + rest)[..2] == CRLF && (CRLF + rest)[2..] == rest;
  }

  /** Decoding an encoding returns the original bytes and then a clean end. */
  lemma {:induction false} DecodeUndoesEncode(sign: Signer, chunks: seq<Bytes>, trailers: seq<Bytes>, seed: Bytes)
    requires OneLine(sign)
    requires forall c | c in chunks :: 1 <= |c| <= MAX_CHUNK_BYTES
    requires forall t | t in trailers :: TrailerText(t)
    ensures Decode(sign, Encode(sign, chunks, trailers, seed), seed) == Decoded(Concat(chunks), EOF)
    decreases |chunks|
  {
    if chunks == [] {
      HeaderLoads(sign, 0, sign(seed, []), TrailerLines(trailers), seed);
      TrailersSkip(trailers);
    } else {
      var c := chunks[0];
      assert c in chunks;
      var signature := sign(seed, c);
      var rest := Encode(sign, chunks[1..], trailers, signature);
      HeaderLoads(sign, |c|, signature, c + (CRLF + rest), seed);
      BodyLoads(sign, c, rest, seed);
      DecodeUndoesEncode(sign, chunks[1..], trailers, signature);
    }
  }

  // ----- When a clean end is reported -----

  /** The stream runs through verified chunks to a verified final chunk and its trailers. */
  predicate Complete(sign: Signer, src: Bytes, prevSig: Bytes)
    decreases |src|
  {
    match LoadChunk(sign, src, prevSig)
    case Final(_, _) => true
    case Chunk(_, signature, rest) => Complete(sign, rest, signature)
    case Fail(_) => false
  }

  /** The input stops inside a trailer line. */
  predicate CutInTrailers(src: Bytes)
    decreases |src|
  {
    match ReadLine(src)
    case Cut(partial) => partial != []
    case Line(line, rest) => EndsInCrLf(line) && line != CRLF && CutInTrailers(rest)
  }

  /** The input stops right after the header of a data chunk or right after its body, or inside
      a trailer line of a verified final chunk. */
  predicate CutInBody(sign: Signer, size: nat, signature: Bytes, src: Bytes, prevSig: Bytes) {
    if size == 0 then sign(prevSig, []) == signature && CutInTrailers(src)
    else src == [] || |src| == size
  }

  /** The input stops inside a header line, or behind an accepted one as above. */
  predicate CutInChunk(sign: Signer, src: Bytes, prevSig: Bytes) {
    match ReadLine(src)
    case Cut(partial) => partial != []
    case Line(line, rest) =>
      && EndsInCrLf(line)
      && match ParseChunkHeader(line[..|line| - 2])
         case None => false
         case Some(h) =>
           match ParseUint(h.sizeHex)
           case None => false
           case Some(size) => size <= MAX_CHUNK_BYTES && CutInBody(sign, size, h.signature, rest, prevSig)
  }

  predicate CutShort(sign: Signer, src: Bytes, prevSig: Bytes)
    decreases |src|
  {
    match LoadChunk(sign, src, prevSig)
    case Chunk(_, signature, rest) => CutShort(sign, rest, signature)
    case _ => CutInChunk(sign, src, prevSig)
  }

  lemma {:induction false} TrailersEofIffCut(src: Bytes)
    ensures SkipTrailers(src) == TrailerError(EOF) <==> CutInTrailers(src)
    decreases |src|
  {
    match ReadLine(src)
    case Cut(_) =>
    case Line(line, rest) => TrailersEofIffCut(rest);
  }

  lemma BodyEofIffCut(sign: Signer, size: nat, signature: Bytes, src: Bytes, prevSig: Bytes)
    ensures LoadBody(sign, size, signature, src, prevSig) == Fail(EOF) <==>
            CutInBody(sign, size, signature, src, prevSig)
  {
    if size == 0 {
      TrailersEofIffCut(src);
    }
  }

  lemma ChunkEofIffCut(sign: Signer, src: Bytes, prevSig: Bytes)
    ensures LoadChunk(sign, src, prevSig) == Fail(EOF) <==> CutInChunk(sign, src, prevSig)
  {
    match ReadLine(src)
    case Cut(_) =>
    case Line(line, rest) =>
      if EndsInCrLf(line) {
        match ParseChunkHeader(line[..|line| - 2])
        case None =>
        case Some(h) =>
          match ParseUint(h.sizeHex)
          case None =>
          case Some(size) => BodyEofIffCut(sign, size, h.signature, rest, prevSig);
      }
  }

  /** The decoder reports a clean end exactly for complete streams and for those cut short at
      one of the points where a read comes back empty-handed. */
  lemma {:induction false} EofIffCompleteOrCut(sign: Signer, src: Bytes, prevSig: Bytes)
    ensures Decode(sign, src, prevSig).end == EOF <==>
            Complete(sign, src, prevSig) || CutShort(sign, src, prevSig)
    decreases |src|
  {
    match LoadChunk(sign, src, prevSig)
    case Chunk(_, signature, rest) => EofIffCompleteOrCut(sign, rest, signature);
    case _ => ChunkEofIffCut(sign, src, prevSig);
  }

  /** Not only complete streams end cleanly: cut right behind a header, every one does. */
  lemma CutBehindHeaderEndsCleanly(sign: Signer, body: Bytes, seed: Bytes)
    requires OneLine(sign) && 1 <= |body| <= MAX_CHUNK_BYTES
    ensures var src := HeaderText(|body|, sign(seed, body)) + CRLF;
            Decode(sign, src, seed) == Decoded([], EOF) && !Complete(sign, src, seed)
  {
    var src := HeaderText(|body|, sign(seed, body)) + CRLF;
    var none: Bytes := [];
    assert src + none == src;
    HeaderLoads(sign, |body|, sign(seed, body), none, seed);
  }
}

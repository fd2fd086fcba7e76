/** What the chunk decoder accepts and refuses, said of the text of the stream: the grammar of a
    chunk, and the one input shape behind each error. */
module ChunkedFraming {
  import opened ByteStrings
  import opened ChunkedDecoder
  import opened ChunkedEncoding
  import opened Wrappers
  import UriEncoding

  // ----- Numbers -----

  function Value(ds: seq<int>): int {
    if ds == [] then 0 else 16 * Value(ds[..|ds| - 1]) + ds[|ds| - 1]
  }

  /** `ds` are the values of the hexadecimal digits of `s`. */
  predicate DigitsOf(s: Bytes, ds: seq<int>) {
    s != [] && |ds| == |s| && forall i | 0 <= i < |s| :: UriEncoding.DigitOf(s[i], ds[i])
  }

  ghost predicate IsHex(s: Bytes, n: int) {
    exists ds :: DigitsOf(s, ds) && Value(ds) == n
  }

  lemma {:induction false} HexHasDigits(s: Bytes) returns (ds: seq<int>)
    requires HexNumber(s).Some?
    ensures DigitsOf(s, ds) && Value(ds) == HexNumber(s).value
  {
    var n := |s| - 1;
    var d := UriEncoding.HexNibble(s[n]).value;
    UriEncoding.HexNibbleIff(s[n], d);
    if n == 0 {
      ds := [d];
      assert Value(ds) == 16 * Value(ds[..0]) + d;
    } else {
      var init := HexHasDigits(s[..n]);
      ds := init + [d];
      assert ds[..n] == init;
    }
  }

  lemma {:induction false} DigitsMakeHex(s: Bytes, ds: seq<int>)
    requires DigitsOf(s, ds)
    ensures HexNumber(s).Some? && HexNumber(s).value == Value(ds)
  {
    var n := |s| - 1;
    UriEncoding.HexNibbleIff(s[n], ds[n]);
    if n == 0 {
      assert ds == [ds[0]] && Value(ds) == 16 * Value(ds[..0]) + ds[0];
    } else {
      assert DigitsOf(s[..n], ds[..n]);
      DigitsMakeHex(s[..n], ds[..n]);
    }
  }

  /** The number read is the value of the digits, in either case and with leading zeros. */
  lemma HexNumberIff(s: Bytes, n: nat)
    ensures HexNumber(s) == Some(n) <==> IsHex(s, n)
  {
    if HexNumber(s) == Some(n) {
      var ds := HexHasDigits(s);
    }
    if ds :| DigitsOf(s, ds) && Value(ds) == n {
      DigitsMakeHex(s, ds);
    }
  }

  lemma HexLacks(s: Bytes, n: int)
    requires IsHex(s, n)
    ensures Lacks(s, SEMICOLON) && Lacks(s, LF)
  {
    var ds :| DigitsOf(s, ds) && Value(ds) == n;
    forall i | 0 <= i < |s| ensures s[i] != SEMICOLON && s[i] != LF {
      UriEncoding.HexNibbleIff(s[i], ds[i]);
    }
  }

  // ----- Headers -----

  function HeaderOf(hex: Bytes, signature: Bytes): Bytes {
    hex + [SEMICOLON] + (SIGNATURE_FIELD + signature)
  }

  /** The stream begins with a header line for `size` bytes under `signature`. */
  ghost predicate Begins(src: Bytes, size: int, signature: Bytes, rest: Bytes) {
    exists hex :: BeginsWith(src, hex, size, signature, rest)
  }

  ghost predicate BeginsWith(src: Bytes, hex: Bytes, size: int, signature: Bytes, rest: Bytes) {
    && IsHex(hex, size) && signature != [] && Lacks(signature, LF)
    && src == HeaderOf(hex, signature) + CRLF + rest
  }

  lemma HeaderOfParses(hex: Bytes, signature: Bytes)
    requires Lacks(hex, SEMICOLON) && signature != []
    ensures ParseChunkHeader(HeaderOf(hex, signature)) == Some(Header(hex, signature))
  {
    var line, field := HeaderOf(hex, signature), SIGNATURE_FIELD + signature;
    assert line[..|hex|] == hex;
    IndexByteIs(line, SEMICOLON, |hex|);
    assert line[|hex| + 1..] == field;
    assert field[|SIGNATURE_FIELD|..] == signature;
  }

  lemma ParsedIsHeaderOf(line: Bytes)
    requires ParseChunkHeader(line).Some?
    ensures var h := ParseChunkHeader(line).value;
            h.signature != [] && line == HeaderOf(h.sizeHex, h.signature)
  {
    var h := ParseChunkHeader(line).value;
    var semi := IndexByte(line, SEMICOLON);
    var rest := line[semi + 1..];
    assert rest == SIGNATURE_FIELD + h.signature;
    assert line == line[..semi] + [line[semi]] + rest;
  }

  /** A header hands its size and signature on, within the limits. */
  lemma LoadWithHeader(sign: Signer, src: Bytes, prevSig: Bytes, size: nat, signature: Bytes, rest: Bytes)
    requires Begins(src, size, signature, rest)
    ensures LoadChunk(sign, src, prevSig) ==
            if size >= UINT64_LIMIT then Fail(MalformedHeader)
            else if size > MAX_CHUNK_BYTES then Fail(ChunkTooLarge)
            else LoadBody(sign, size, signature, rest, prevSig)
  {
    var hex :| BeginsWith(src, hex, size, signature, rest);
    HeaderReads(src, hex, size, signature, rest);
    HeaderOfParses(hex, signature);
    HexNumberIff(hex, size);
    LoadParsed(sign, src, prevSig, HeaderOf(hex, signature) + CRLF, rest, Header(hex, signature), size);
  }

  lemma LoadParsed(sign: Signer, src: Bytes, prevSig: Bytes, line: Bytes, rest: Bytes, h: Header, size: nat)
    requires ReadLine(src) == Line(line, rest) && EndsInCrLf(line)
    requires ParseChunkHeader(line[..|line| - 2]) == Some(h) && HexNumber(h.sizeHex) == Some(size)
    ensures LoadChunk(sign, src, prevSig) ==
            if size >= UINT64_LIMIT then Fail(MalformedHeader)
            else if size > MAX_CHUNK_BYTES then Fail(ChunkTooLarge)
            else LoadBody(sign, size, h.signature, rest, prevSig)
  {
  }

  lemma HeaderReads(src: Bytes, hex: Bytes, size: nat, signature: Bytes, rest: Bytes)
    requires BeginsWith(src, hex, size, signature, rest)
    ensures Lacks(hex, SEMICOLON)
    ensures var line := HeaderOf(hex, signature) + CRLF;
            ReadLine(src) == Line(line, rest) && EndsInCrLf(line) && line[..|line| - 2] == HeaderOf(hex, signature)
  {
    HexLacks(hex, size);
    assert Lacks(HeaderOf(hex, signature), LF);
    LineReads(HeaderOf(hex, signature), rest);
  }

  /** Without one there is nothing to load. */
  lemma LoadWithoutHeader(sign: Signer, src: Bytes, prevSig: Bytes)
    requires !exists size: nat, signature, rest :: Begins(src, size, signature, rest)
    ensures LoadChunk(sign, src, prevSig) ==
            Fail(if src == [] then UnexpectedEOF else if Lacks(src, LF) then EOF else MalformedHeader)
  {
    match ReadLine(src)
    case Cut(_) =>
      LoadCut(sign, src, prevSig);
    case Line(line, rest) =>
      assert src[|line| - 1] == LF;
      if !EndsInCrLf(line) {
        LoadBareLine(sign, src, prevSig, line, rest);
      } else {
        var h := ParseChunkHeader(line[..|line| - 2]);
        if h.Some? {
          HeaderBegins(src, line, rest);
        }
        LoadUnparsed(sign, src, prevSig, line, rest, h);
      }
  }

  lemma LoadCut(sign: Signer, src: Bytes, prevSig: Bytes)
    requires ReadLine(src).Cut?
    ensures LoadChunk(sign, src, prevSig) == Fail(if src == [] then UnexpectedEOF else EOF)
  {
  }

  lemma LoadBareLine(sign: Signer, src: Bytes, prevSig: Bytes, line: Bytes, rest: Bytes)
    requires ReadLine(src) == Line(line, rest) && !EndsInCrLf(line)
    ensures LoadChunk(sign, src, prevSig) == Fail(MalformedHeader)
  {
  }

  lemma LoadUnparsed(sign: Signer, src: Bytes, prevSig: Bytes, line: Bytes, rest: Bytes, h: Option<Header>)
    requires ReadLine(src) == Line(line, rest) && EndsInCrLf(line)
    requires ParseChunkHeader(line[..|line| - 2]) == h && (h.Some? ==> HexNumber(h.value.sizeHex).None?)
    ensures LoadChunk(sign, src, prevSig) == Fail(MalformedHeader)
  {
  }

  lemma HeaderBegins(src: Bytes, line: Bytes, rest: Bytes)
    requires src == line + rest && EndsInCrLf(line) && Lacks(line[..|line| - 1], LF)
    requires ParseChunkHeader(line[..|line| - 2]).Some?
    ensures var h := ParseChunkHeader(line[..|line| - 2]).value;
            forall size: nat :: HexNumber(h.sizeHex) == Some(size) ==> Begins(src, size, h.signature, rest)
  {
    var text := line[..|line| - 2];
    var h := ParseChunkHeader(text).value;
    ParsedIsHeaderOf(text);
    assert line == text + CRLF && text == line[..|line| - 1][..|text|];
    SignatureLacks(h.sizeHex, h.signature, LF);
    forall size: nat | HexNumber(h.sizeHex) == Some(size) ensures Begins(src, size, h.signature, rest) {
      HexNumberIff(h.sizeHex, size);
      assert BeginsWith(src, h.sizeHex, size, h.signature, rest);
    }
  }

  lemma SignatureLacks(hex: Bytes, signature: Bytes, c: Byte)
    requires Lacks(HeaderOf(hex, signature), c)
    ensures Lacks(signature, c)
  {
    var text := HeaderOf(hex, signature);
    var n := |text| - |signature|;
    assert forall i | 0 <= i < |signature| :: text[n + i] == signature[i];
  }

  /** A stream has at most one header, so the answer to it can be read off it. */
  lemma HeaderOrNot(src: Bytes) returns (size: nat, signature: Bytes, rest: Bytes)
    ensures Begins(src, size, signature, rest) || !exists n: nat, sig, r :: Begins(src, n, sig, r)
  {
    size, signature, rest := 0, [], [];
    if n: nat, sig, r :| Begins(src, n, sig, r) {
      size, signature, rest := n, sig, r;
    }
  }

  // ----- What is accepted -----

  lemma LoadedBody(sign: Signer, size: nat, signature: Bytes, src: Bytes, prevSig: Bytes)
    requires LoadBody(sign, size, signature, src, prevSig).Chunk?
    ensures var r := LoadBody(sign, size, signature, src, prevSig);
            size == |r.body| && signature == r.signature && src == r.body + (CRLF + r.rest)
  {
    assert src == src[..size] + src[size..];
    assert src[size..] == src[size..][..2] + src[size..][2..];
  }

  lemma ChunkBegins(sign: Signer, src: Bytes, prevSig: Bytes)
    requires LoadChunk(sign, src, prevSig).Chunk?
    ensures var r := LoadChunk(sign, src, prevSig);
            Begins(src, |r.body|, r.signature, r.body + (CRLF + r.rest))
  {
    var size, signature, rest := HeaderOrNot(src);
    if Begins(src, size, signature, rest) {
      LoadWithHeader(sign, src, prevSig, size, signature, rest);
      LoadedBody(sign, size, signature, rest, prevSig);
    } else {
      LoadWithoutHeader(sign, src, prevSig);
    }
  }

  /** A data chunk is accepted exactly when the stream begins with its header, its body and a
      line end, and its signature is that of the body. */
  lemma ChunkIff(sign: Signer, src: Bytes, prevSig: Bytes, body: Bytes, signature: Bytes, rest: Bytes)
    ensures LoadChunk(sign, src, prevSig) == Chunk(body, signature, rest) <==>
            && 1 <= |body| <= MAX_CHUNK_BYTES && signature == sign(prevSig, body)
            && Begins(src, |body|, signature, body + (CRLF + rest))
  {
    if LoadChunk(sign, src, prevSig) == Chunk(body, signature, rest) {
      ChunkBegins(sign, src, prevSig);
    }
    if 1 <= |body| <= MAX_CHUNK_BYTES && signature == sign(prevSig, body)
      && Begins(src, |body|, signature, body + (CRLF + rest)) {
      LoadWithHeader(sign, src, prevSig, |body|, signature, body + (CRLF + rest));
      BodyLoads(sign, body, rest, prevSig);
    }
  }

  // ----- Trailers -----

  /** Lines of text, each with its line end. */
  function Lines(texts: seq<Bytes>): Bytes {
    if texts == [] then [] else texts[0] + CRLF + Lines(texts[1..])
  }

  ghost predicate TrailerTexts(texts: seq<Bytes>) {
    forall t | t in texts :: TrailerText(t)
  }

  lemma {:induction false} LinesAreSkipped(texts: seq<Bytes>, tail: Bytes)
    requires TrailerTexts(texts)
    ensures SkipTrailers(Lines(texts) + tail) == SkipTrailers(tail)
  {
    if texts == [] {
      assert Lines(texts) + tail == tail;
    } else {
      var t, more := texts[0], Lines(texts[1..]) + tail;
      assert Lines(texts) + tail == t + CRLF + more;
      assert forall x | x in texts[1..] :: x in texts;
      LinesAreSkipped(texts[1..], tail);
      TrailerSkips(t, more);
    }
  }

  /** A line that ends in a line feed alone. */
  ghost predicate BareLine(tail: Bytes) {
    exists i :: BareAt(tail, i)
  }

  predicate BareAt(tail: Bytes, i: int) {
    0 <= i < |tail| && tail[i] == LF && Lacks(tail[..i], LF) && (i == 0 || tail[i - 1] != CR)
  }

  /** The text behind the trailers decides: nothing, a line cut off, the empty line, or a line
      with a bare line feed. */
  ghost predicate Decides(tail: Bytes, r: Trailers) {
    || (tail == [] && r == TrailerError(UnexpectedEOF))
    || (tail != [] && Lacks(tail, LF) && r == TrailerError(EOF))
    || (CRLF <= tail && r == Discarded(tail[2..]))
    || (BareLine(tail) && r == TrailerError(MalformedHeader))
  }

  lemma TailDecides(tail: Bytes, r: Trailers)
    requires Decides(tail, r)
    ensures SkipTrailers(tail) == r
  {
    if r.Discarded? {
      EmptyLineEnds(tail[2..]);
      assert tail == CRLF + tail[2..];
    } else if r.error == MalformedHeader {
      BareLineFails(tail);
    } else {
      CutLineFails(tail);
    }
  }

  lemma EmptyLineEnds(rest: Bytes)
    ensures SkipTrailers(CRLF + rest) == Discarded(rest)
  {
    var none: Bytes := [];
    assert none + CRLF == CRLF && none + CRLF + rest == CRLF + rest;
    LineReads(none, rest);
  }

  lemma CutLineFails(tail: Bytes)
    requires Lacks(tail, LF)
    ensures SkipTrailers(tail) == TrailerError(if tail == [] then UnexpectedEOF else EOF)
  {
  }

  lemma BareLineFails(tail: Bytes)
    requires BareLine(tail)
    ensures SkipTrailers(tail) == TrailerError(MalformedHeader)
  {
    var i :| BareAt(tail, i);
    BareLineReads(tail, i);
    SkipStops(tail, tail[..i + 1], tail[i + 1..]);
  }

  lemma BareLineReads(tail: Bytes, i: nat)
    requires BareAt(tail, i)
    ensures ReadLine(tail) == Line(tail[..i + 1], tail[i + 1..]) && !EndsInCrLf(tail[..i + 1])
  {
    IndexByteIs(tail, LF, i);
    BareIsNoLineEnd(tail, i);
  }

  lemma SkipStops(src: Bytes, line: Bytes, rest: Bytes)
    requires ReadLine(src) == Line(line, rest) && !EndsInCrLf(line)
    ensures SkipTrailers(src) == TrailerError(MalformedHeader)
  {
  }

  lemma BareIsNoLineEnd(tail: Bytes, i: nat)
    requires i < |tail| && (i == 0 || tail[i - 1] != CR)
    ensures !EndsInCrLf(tail[..i + 1])
  {
    var line := tail[..i + 1];
    if i > 0 {
      assert line[|line| - 2..][0] == tail[i - 1];
    }
  }

  lemma LineText(line: Bytes) returns (t: Bytes)
    requires EndsInCrLf(line) && line != CRLF && Lacks(line[..|line| - 1], LF)
    ensures TrailerText(t) && line == t + CRLF
  {
    t := line[..|line| - 2];
    assert t == line[..|line| - 1][..|t|];
    assert line == t + line[|line| - 2..];
  }

  lemma FirstTrailer(src: Bytes) returns (t: Bytes)
    requires ReadLine(src).Line? && EndsInCrLf(ReadLine(src).text) && ReadLine(src).text != CRLF
    ensures TrailerText(t) && src == t + CRLF + ReadLine(src).rest
  {
    t := LineText(ReadLine(src).text);
  }

  lemma LineIsBare(line: Bytes, rest: Bytes)
    requires line != [] && line[|line| - 1] == LF && Lacks(line[..|line| - 1], LF) && !EndsInCrLf(line)
    ensures BareLine(line + rest)
  {
    var s, i := line + rest, |line| - 1;
    assert s[..i] == line[..i] && s[i] == LF;
    assert i == 0 || line[i - 1..] == [line[i - 1], LF];
    assert BareAt(s, i);
  }

  /** A text that does not begin with a whole trailer line is a tail that decides. */
  lemma TailIsDecided(src: Bytes)
    requires ReadLine(src).Line? ==> !EndsInCrLf(ReadLine(src).text) || ReadLine(src).text == CRLF
    ensures Decides(src, SkipTrailers(src))
  {
    var r := ReadLine(src);
    if r.Line? {
      if r.text == CRLF {
        assert src == CRLF + r.rest && src[2..] == r.rest && SkipTrailers(src) == Discarded(r.rest);
      } else {
        LineIsBare(r.text, r.rest);
      }
    }
  }

  /** Any text is some whole trailer lines and then a text that does not begin with one. */
  lemma {:induction false} CutIntoLines(src: Bytes) returns (texts: seq<Bytes>, tail: Bytes)
    ensures TrailerTexts(texts) && src == Lines(texts) + tail
    ensures ReadLine(tail).Line? ==> !EndsInCrLf(ReadLine(tail).text) || ReadLine(tail).text == CRLF
    decreases |src|
  {
    var r := ReadLine(src);
    if r.Line? && EndsInCrLf(r.text) && r.text != CRLF {
      var t := FirstTrailer(src);
      var more;
      more, tail := CutIntoLines(r.rest);
      LinesCons(t, more, tail);
      texts := [t] + more;
    } else {
      texts, tail := [], src;
      assert Lines(texts) + tail == src;
    }
  }

  lemma TrailersDecompose(src: Bytes) returns (texts: seq<Bytes>, tail: Bytes)
    ensures Trailed(src, texts, tail, SkipTrailers(src))
  {
    texts, tail := CutIntoLines(src);
    LinesAreSkipped(texts, tail);
    TailIsDecided(tail);
  }

  lemma LinesCons(t: Bytes, texts: seq<Bytes>, tail: Bytes)
    requires TrailerText(t) && TrailerTexts(texts)
    ensures TrailerTexts([t] + texts) && Lines([t] + texts) + tail == t + CRLF + (Lines(texts) + tail)
  {
    assert ([t] + texts)[1..] == texts;
  }

  ghost predicate Trailed(src: Bytes, texts: seq<Bytes>, tail: Bytes, r: Trailers) {
    TrailerTexts(texts) && src == Lines(texts) + tail && Decides(tail, r)
  }

  /** Skipping trailers: the whole of what it can meet, and what comes of it. */
  lemma SkipTrailersIff(src: Bytes, r: Trailers)
    ensures SkipTrailers(src) == r <==> exists texts, tail :: Trailed(src, texts, tail, r)
  {
    if SkipTrailers(src) == r {
      var texts, tail := TrailersDecompose(src);
    }
    if texts, tail :| Trailed(src, texts, tail, r) {
      LinesAreSkipped(texts, tail);
      TailDecides(tail, r);
    }
  }

  // ----- What each answer means -----

  /** The answer to a header for `size` bytes followed by `rest`. */
  ghost predicate Answers(sign: Signer, prevSig: Bytes, size: nat, signature: Bytes, rest: Bytes, r: Load) {
    match r
    case Chunk(body, sig, more) =>
      && 1 <= size == |body| <= MAX_CHUNK_BYTES && sig == signature == sign(prevSig, body)
      && rest == body + (CRLF + more)
    case Final(sig, more) =>
      && size == 0 && sig == signature == sign(prevSig, [])
      && exists texts, tail :: Trailed(rest, texts, tail, Discarded(more))
    case Fail(ChunkTooLarge) => MAX_CHUNK_BYTES < size < UINT64_LIMIT
    case Fail(TrailerMismatch) => 1 <= size <= MAX_CHUNK_BYTES && size + 2 <= |rest| && !(CRLF <= rest[size..])
    case Fail(SignatureMismatch) =>
      || (size == 0 && signature != sign(prevSig, []))
      || (1 <= size <= MAX_CHUNK_BYTES && size + 2 <= |rest| && CRLF <= rest[size..]
          && signature != sign(prevSig, rest[..size]))
    case Fail(e) =>
      || (1 <= size <= MAX_CHUNK_BYTES
          && ((e == EOF && (rest == [] || |rest| == size))
              || (e == UnexpectedEOF && (0 < |rest| < size || |rest| == size + 1))))
      || (e == MalformedHeader && size >= UINT64_LIMIT)
      || (size == 0 && signature == sign(prevSig, [])
          && exists texts, tail :: Trailed(rest, texts, tail, TrailerError(e)))
  }

  lemma DataAnswers(sign: Signer, prevSig: Bytes, size: nat, signature: Bytes, rest: Bytes)
    requires 1 <= size <= MAX_CHUNK_BYTES
    ensures Answers(sign, prevSig, size, signature, rest, LoadBody(sign, size, signature, rest, prevSig))
  {
    var r := LoadBody(sign, size, signature, rest, prevSig);
    if r.Chunk? {
      LoadedBody(sign, size, signature, rest, prevSig);
    } else if size + 2 <= |rest| {
      assert CRLF <= rest[size..] <==> rest[size..][..2] == CRLF;
    }
  }

  lemma FinalAnswers(sign: Signer, prevSig: Bytes, signature: Bytes, rest: Bytes)
    ensures Answers(sign, prevSig, 0, signature, rest, LoadBody(sign, 0, signature, rest, prevSig))
  {
    SkipTrailersIff(rest, SkipTrailers(rest));
  }

  /** Every stream gets the answer its text calls for: one that begins with a header the answer
      to that header, any other the error for an empty, an unfinished or a malformed line. */
  lemma EveryStreamIsAnswered(sign: Signer, src: Bytes, prevSig: Bytes)
    ensures var r := LoadChunk(sign, src, prevSig);
            if exists size: nat, signature, rest :: Begins(src, size, signature, rest)
            then exists size: nat, signature, rest ::
                   Begins(src, size, signature, rest) && Answers(sign, prevSig, size, signature, rest, r)
            else r == Fail(if src == [] then UnexpectedEOF else if Lacks(src, LF) then EOF else MalformedHeader)
  {
    var size, signature, rest := HeaderOrNot(src);
    if Begins(src, size, signature, rest) {
      LoadWithHeader(sign, src, prevSig, size, signature, rest);
      if size == 0 {
        FinalAnswers(sign, prevSig, signature, rest);
      } else if size <= MAX_CHUNK_BYTES {
        DataAnswers(sign, prevSig, size, signature, rest);
      }
      assert Answers(sign, prevSig, size, signature, rest, LoadChunk(sign, src, prevSig));
    } else {
      LoadWithoutHeader(sign, src, prevSig);
    }
  }

  /** The stream begins with an empty chunk and trailer lines up to an empty one. */
  ghost predicate Finishes(src: Bytes, signature: Bytes, texts: seq<Bytes>, rest: Bytes) {
    TrailerTexts(texts) && Begins(src, 0, signature, Lines(texts) + (CRLF + rest))
  }

  lemma DiscardedTexts(src: Bytes) returns (texts: seq<Bytes>)
    requires SkipTrailers(src).Discarded?
    ensures TrailerTexts(texts) && src == Lines(texts) + (CRLF + SkipTrailers(src).rest)
  {
    var tail;
    texts, tail := TrailersDecompose(src);
    TrailsEmptyLine(src, texts, tail, SkipTrailers(src));
  }

  lemma TrailsEmptyLine(src: Bytes, texts: seq<Bytes>, tail: Bytes, r: Trailers)
    requires Trailed(src, texts, tail, r) && r.Discarded?
    ensures src == Lines(texts) + (CRLF + r.rest)
  {
    assert tail == CRLF + tail[2..];
  }

  lemma FinalFinishes(sign: Signer, src: Bytes, prevSig: Bytes) returns (texts: seq<Bytes>)
    requires LoadChunk(sign, src, prevSig).Final?
    ensures var r := LoadChunk(sign, src, prevSig);
            Finishes(src, r.signature, texts, r.rest)
  {
    var size, signature, rest := HeaderOrNot(src);
    if Begins(src, size, signature, rest) {
      LoadWithHeader(sign, src, prevSig, size, signature, rest);
      texts := DiscardedTexts(rest);
    } else {
      LoadWithoutHeader(sign, src, prevSig);
    }
  }

  lemma FinishedIsFinal(sign: Signer, src: Bytes, prevSig: Bytes, texts: seq<Bytes>, rest: Bytes)
    requires Finishes(src, sign(prevSig, []), texts, rest)
    ensures LoadChunk(sign, src, prevSig) == Final(sign(prevSig, []), rest)
  {
    var tail := CRLF + rest;
    LoadWithHeader(sign, src, prevSig, 0, sign(prevSig, []), Lines(texts) + tail);
    LinesAreSkipped(texts, tail);
    assert tail[2..] == rest && CRLF <= tail;
    TailDecides(tail, Discarded(rest));
  }

  /** The final chunk is accepted exactly when it is there with its trailers, signed as empty. */
  lemma FinalIff(sign: Signer, src: Bytes, prevSig: Bytes, signature: Bytes, rest: Bytes)
    ensures LoadChunk(sign, src, prevSig) == Final(signature, rest) <==>
            signature == sign(prevSig, []) && exists texts :: Finishes(src, signature, texts, rest)
  {
    if LoadChunk(sign, src, prevSig) == Final(signature, rest) {
      var texts := FinalFinishes(sign, src, prevSig);
    }
    if texts :| Finishes(src, signature, texts, rest) {
      if signature == sign(prevSig, []) {
        FinishedIsFinal(sign, src, prevSig, texts, rest);
      }
    }
  }
}

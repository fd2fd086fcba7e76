/** The decoder for signed chunked uploads: framing, the chain of chunk signatures, and reads
    of any size. The signature of a chunk body under the previous signature is a parameter. */
module ChunkedDecoder {
  import opened ByteStrings
  import opened Wrappers
  import UriEncoding

  const CR: Byte := 13
  const LF: Byte := 10
  const SEMICOLON: Byte := 59
  const CRLF: Bytes := [CR, LF]

  /** "chunk-signature=" */
  const SIGNATURE_FIELD: Bytes := [99, 104, 117, 110, 107, 45, 115, 105, 103, 110, 97, 116, 117, 114, 101, 61]

  const MAX_CHUNK_BYTES: nat := 64 * 1024 * 1024

  const UINT64_LIMIT: nat := 0x1_0000_0000_0000_0000

  datatype Error = EOF | UnexpectedEOF | MalformedHeader | ChunkTooLarge | TrailerMismatch | SignatureMismatch

  /** Signature of a chunk body chained to the previous signature. */
  type Signer = (Bytes, Bytes) -> Bytes

  // ----- Lines and numbers -----

  /** A line with its terminator, or what was left when the input ended without one. */
  datatype Line = Line(text: Bytes, rest: Bytes) | Cut(partial: Bytes)

  function ReadLine(s: Bytes): (r: Line)
    ensures r.Line? ==> s == r.text + r.rest && r.text != []
    ensures r.Line? ==> r.text[|r.text| - 1] == LF && Lacks(r.text[..|r.text| - 1], LF)
    ensures r.Cut? ==> r.partial == s && Lacks(s, LF)
  {
    var i := IndexByte(s, LF);
    if i < 0 then Cut(s) else Line(s[..i + 1], s[i + 1..])
  }

  predicate EndsInCrLf(line: Bytes) {
    |line| >= 2 && line[|line| - 2..] == CRLF
  }

  /** Hexadecimal digits as a number of any size; no digits or a foreign byte give nothing. */
  function HexNumber(s: Bytes): Option<nat> {
    if s == [] then None
    else
      match UriEncoding.HexNibble(s[|s| - 1])
      case None => None
      case Some(d) =>
        if |s| == 1 then Some(d)
        else
          match HexNumber(s[..|s| - 1])
          case None => None
          case Some(n) => Some(16 * n + d)
  }

  function ParseUint(s: Bytes): Option<nat> {
    match HexNumber(s)
    case None => None
    case Some(n) => if n < UINT64_LIMIT then Some(n) else None
  }

  datatype Header = Header(sizeHex: Bytes, signature: Bytes)

  function ParseChunkHeader(line: Bytes): Option<Header> {
    var semi := IndexByte(line, SEMICOLON);
    if semi < 0 then None
    else
      var rest := line[semi + 1..];
      if !(SIGNATURE_FIELD <= rest) || |rest| == |SIGNATURE_FIELD| then None
      else Some(Header(line[..semi], rest[|SIGNATURE_FIELD|..]))
  }

  // ----- One chunk -----

  datatype Trailers = Discarded(rest: Bytes) | TrailerError(error: Error)

  /** Skips trailer lines up to and including the empty one. */
  function SkipTrailers(src: Bytes): (r: Trailers)
    ensures r.Discarded? ==> |r.rest| < |src|
    decreases |src|
  {
    match ReadLine(src)
    case Cut(partial) => TrailerError(if partial == [] then UnexpectedEOF else EOF)
    case Line(line, rest) =>
      if !EndsInCrLf(line) then TrailerError(MalformedHeader)
      else if line == CRLF then Discarded(rest)
      else SkipTrailers(rest)
  }

  datatype Load =
    | Chunk(body: Bytes, signature: Bytes, rest: Bytes)
    | Final(signature: Bytes, rest: Bytes)
    | Fail(error: Error)

  /** io.ReadFull reports a clean end when nothing at all was left to read. */
  function ShortRead(left: Bytes): Error {
    if left == [] then EOF else UnexpectedEOF
  }

  function LoadBody(sign: Signer, size: nat, signature: Bytes, src: Bytes, prevSig: Bytes): (r: Load)
    ensures !r.Fail? ==> |r.rest| <= |src|
    ensures r.Chunk? ==> |r.body| == size > 0 && r.signature == sign(prevSig, r.body)
    ensures r.Final? ==> r.signature == sign(prevSig, [])
  {
    if size == 0 then
      if sign(prevSig, []) != signature then Fail(SignatureMismatch)
      else
        match SkipTrailers(src)
        case TrailerError(e) => Fail(e)
        case Discarded(rest) => Final(signature, rest)
    else if |src| < size then Fail(ShortRead(src))
    else
      var body, tail := src[..size], src[size..];
      if |tail| < 2 then Fail(ShortRead(tail))
      else if tail[..2] != CRLF then Fail(TrailerMismatch)
      else if sign(prevSig, body) != signature then Fail(SignatureMismatch)
      else Chunk(body, signature, tail[2..])
  }

  function LoadChunk(sign: Signer, src: Bytes, prevSig: Bytes): (r: Load)
    ensures !r.Fail? ==> |r.rest| < |src|
    ensures r.Chunk? ==> 1 <= |r.body| <= MAX_CHUNK_BYTES && r.signature == sign(prevSig, r.body)
    ensures r.Final? ==> r.signature == sign(prevSig, [])
  {
    match ReadLine(src)
    case Cut(partial) => Fail(if partial == [] then UnexpectedEOF else EOF)
    case Line(line, rest) =>
      if !EndsInCrLf(line) then Fail(MalformedHeader)
      else
        match ParseChunkHeader(line[..|line| - 2])
        case None => Fail(MalformedHeader)
        case Some(h) =>
          match ParseUint(h.sizeHex)
          case None => Fail(MalformedHeader)
          case Some(size) =>
            if size > MAX_CHUNK_BYTES then Fail(ChunkTooLarge)
            else LoadBody(sign, size, h.signature, rest, prevSig)
  }

  // ----- The whole stream -----

  datatype Decoded = Decoded(data: Bytes, end: Error)

  /** All bytes the stream yields, and what it ends with. */
  function Decode(sign: Signer, src: Bytes, prevSig: Bytes): Decoded
    decreases |src|
  {
    match LoadChunk(sign, src, prevSig)
    case Fail(e) => Decoded([], e)
    case Final(_, _) => Decoded([], EOF)
    case Chunk(body, signature, rest) =>
      var d := Decode(sign, rest, signature);
      Decoded(body + d.data, d.end)
  }

  datatype Signed = Signed(body: Bytes, signature: Bytes)

  /** The chunks a stream yields before it ends or fails. */
  function Accepted(sign: Signer, src: Bytes, prevSig: Bytes): seq<Signed>
    decreases |src|
  {
    match LoadChunk(sign, src, prevSig)
    case Chunk(body, signature, rest) => [Signed(body, signature)] + Accepted(sign, rest, signature)
    case _ => []
  }

  function Bodies(chunks: seq<Signed>): Bytes {
    if chunks == [] then [] else chunks[0].body + Bodies(chunks[1..])
  }

  /** Each signature is that of its body under the previous signature, starting at the seed. */
  predicate Chained(sign: Signer, seed: Bytes, chunks: seq<Signed>)
    decreases |chunks|
  {
    chunks != [] ==>
      && chunks[0].signature == sign(seed, chunks[0].body)
      && Chained(sign, chunks[0].signature, chunks[1..])
  }

  /** On any input, what is decoded is exactly the bodies of non-empty, bounded chunks whose
      signatures chain from the seed. */
  lemma {:induction false} DecodedBytesAreSigned(sign: Signer, src: Bytes, seed: Bytes)
    ensures var chunks := Accepted(sign, src, seed);
            && Decode(sign, src, seed).data == Bodies(chunks)
            && Chained(sign, seed, chunks)
            && forall c | c in chunks :: 1 <= |c.body| <= MAX_CHUNK_BYTES
    decreases |src|
  {
    match LoadChunk(sign, src, seed)
    case Chunk(body, signature, rest) =>
      DecodedBytesAreSigned(sign, rest, signature);
      assert Accepted(sign, src, seed)[1..] == Accepted(sign, rest, signature);
    case _ =>
  }

  // ----- The same for any way of loading chunks -----

  type Loader = (Bytes, Bytes) -> Load

  ghost predicate Shrinks(load: Loader) {
    forall src, prevSig :: !load(src, prevSig).Fail? ==> |load(src, prevSig).rest| < |src|
  }

  /** `load` is the decoder's own loading of chunks. */
  ghost predicate Loads(load: Loader, sign: Signer) {
    forall src, prevSig {:trigger LoadChunk(sign, src, prevSig)} ::
      load(src, prevSig) == LoadChunk(sign, src, prevSig)
  }

  ghost function Drain(load: Loader, src: Bytes, prevSig: Bytes): Decoded
    requires Shrinks(load)
    decreases |src|
  {
    match load(src, prevSig)
    case Fail(e) => Decoded([], e)
    case Final(_, _) => Decoded([], EOF)
    case Chunk(body, signature, rest) =>
      var d := Drain(load, rest, signature);
      Decoded(body + d.data, d.end)
  }

  lemma {:induction false} DrainIsDecode(load: Loader, sign: Signer, src: Bytes, prevSig: Bytes)
    requires Shrinks(load) && Loads(load, sign)
    ensures Drain(load, src, prevSig) == Decode(sign, src, prevSig)
    decreases |src|
  {
    match LoadChunk(sign, src, prevSig)
    case Chunk(_, signature, rest) => DrainIsDecode(load, sign, rest, signature);
    case _ =>
  }

  function ChunkLoader(sign: Signer): Loader {
    (src, prevSig) => LoadChunk(sign, src, prevSig)
  }

  lemma ChunkLoaderLoads(sign: Signer)
    ensures Shrinks(ChunkLoader(sign)) && Loads(ChunkLoader(sign), sign)
  {
  }

  // ----- The incremental reader -----

  lemma SplitBuffer(buf: Bytes, pos: nat, n: nat, tail: Bytes)
    requires pos + n <= |buf|
    ensures buf[pos..] + tail == buf[pos..pos + n] + (buf[pos + n..] + tail)
  {
  }

  method DiscardChunkTrailers(src: Bytes) returns (rest: Bytes, e: Option<Error>)
    ensures SkipTrailers(src) == if e.Some? then TrailerError(e.value) else Discarded(rest)
  {
    rest := src;
    while true
      invariant SkipTrailers(rest) == SkipTrailers(src)
      decreases |rest|
    {
      var next := ReadLine(rest);
      if next.Cut? {
        return [], Some(if next.partial == [] then UnexpectedEOF else EOF);
      }
      if !EndsInCrLf(next.text) {
        return next.rest, Some(MalformedHeader);
      }
      rest := next.rest;
      if next.text == CRLF {
        return rest, None;
      }
    }
  }

  class Decoder {
    const sign: Signer
    ghost const load: Loader
    var src: Bytes
    var prevSig: Bytes
    var curBuf: Bytes
    var curPos: nat
    var done: bool
    var err: Option<Error>

    ghost predicate Valid()
      reads this
    {
      curPos <= |curBuf| && (done ==> curBuf == []) && Shrinks(load) && Loads(load, sign)
    }

    /** What reads from here on yield, and what they end with. */
    ghost function Remaining(): Decoded
      requires Valid()
      reads this
    {
      if err.Some? then Decoded([], err.value)
      else if done then Decoded([], EOF)
      else
        var d := Drain(load, src, prevSig);
        Decoded(curBuf[curPos..] + d.data, d.end)
    }

    constructor (sign: Signer, body: Bytes, seedSig: Bytes)
      ensures Valid() && this.sign == sign && Remaining() == Decode(sign, body, seedSig)
    {
      this.sign, load := sign, ChunkLoader(sign);
      src, prevSig, curBuf, curPos, done, err := body, seedSig, [], 0, false, None;
      new;
      ChunkLoaderLoads(sign);
      DrainIsDecode(load, sign, body, seedSig);
      assert curBuf[curPos..] + Drain(load, body, seedSig).data == Drain(load, body, seedSig).data;
    }

    /** Consumes one chunk from the source and verifies it before any of it can be read. */
    method LoadNextChunk() returns (e: Option<Error>)
      modifies `src, `prevSig, `curBuf, `curPos, `done
      ensures match LoadChunk(sign, old(src), old(prevSig))
              case Fail(x) => e == Some(x) && curBuf == old(curBuf) && curPos == old(curPos) && done == old(done)
              case Chunk(body, signature, rest) =>
                && e == None && src == rest && prevSig == signature
                && curBuf == body && curPos == 0 && done == old(done)
              case Final(signature, rest) =>
                && e == None && src == rest && prevSig == signature
                && curBuf == [] && curPos == 0 && done
    {
      var header;
      match ReadLine(src)
      case Cut(partial) =>
        src := [];
        return Some(if partial == [] then UnexpectedEOF else EOF);
      case Line(line, rest) =>
        header, src := line, rest;
      if !EndsInCrLf(header) {
        return Some(MalformedHeader);
      }
      var parsed := ParseChunkHeader(header[..|header| - 2]);
      if parsed.None? {
        return Some(MalformedHeader);
      }
      var size := ParseUint(parsed.value.sizeHex);
      if size.None? {
        return Some(MalformedHeader);
      }
      if size.value > MAX_CHUNK_BYTES {
        return Some(ChunkTooLarge);
      }
      e := LoadSizedBody(size.value, parsed.value.signature);
    }

    method LoadSizedBody(size: nat, signature: Bytes) returns (e: Option<Error>)
      modifies `src, `prevSig, `curBuf, `curPos, `done
      ensures match LoadBody(sign, size, signature, old(src), old(prevSig))
              case Fail(x) => e == Some(x) && curBuf == old(curBuf) && curPos == old(curPos) && done == old(done)
              case Chunk(body, sig, rest) =>
                && e == None && src == rest && prevSig == sig
                && curBuf == body && curPos == 0 && done == old(done)
              case Final(sig, rest) =>
                && e == None && src == rest && prevSig == sig
                && curBuf == [] && curPos == 0 && done
    {
      if size == 0 {
        e := LoadFinal(signature);
      } else {
        e := LoadData(size, signature);
      }
    }

    method LoadFinal(signature: Bytes) returns (e: Option<Error>)
      modifies `src, `prevSig, `curBuf, `curPos, `done
      ensures var r := LoadBody(sign, 0, signature, old(src), old(prevSig));
              if r.Final?
              then e == None && src == r.rest && prevSig == r.signature && curBuf == [] && curPos == 0 && done
              else r.Fail? && e == Some(r.error) && curBuf == old(curBuf) && curPos == old(curPos) && done == old(done)
    {
      if sign(prevSig, []) != signature {
        return Some(SignatureMismatch);
      }
      var rest;
      rest, e := DiscardChunkTrailers(src);
      prevSig, src := signature, rest;
      if e.None? {
        done, curBuf, curPos := true, [], 0;
      }
    }

    method LoadData(size: nat, signature: Bytes) returns (e: Option<Error>)
      requires size > 0
      modifies `src, `prevSig, `curBuf, `curPos
      ensures var r := LoadBody(sign, size, signature, old(src), old(prevSig));
              if r.Chunk?
              then e == None && src == r.rest && prevSig == r.signature && curBuf == r.body && curPos == 0
              else r.Fail? && e == Some(r.error) && curBuf == old(curBuf) && curPos == old(curPos)
    {
      if |src| < size {
        return Some(ShortRead(src));
      }
      var body, tail := src[..size], src[size..];
      src := tail;
      if |tail| < 2 {
        return Some(ShortRead(tail));
      }
      if tail[..2] != CRLF {
        return Some(TrailerMismatch);
      }
      src := tail[2..];
      if sign(prevSig, body) != signature {
        return Some(SignatureMismatch);
      }
      prevSig, curBuf, curPos := signature, body, 0;
      return None;
    }

    /** Loading keeps what remains: it fails only where nothing is left to hand out. */
    method Advance() returns (e: Option<Error>)
      requires Valid() && err.None? && !done && curPos == |curBuf|
      modifies this
      ensures Valid() && Remaining() == old(Remaining())
      ensures e == err
      ensures e.Some? ==> Remaining() == Decoded([], e.value)
      ensures e.None? ==> (done || (|src| < old(|src|) && curPos < |curBuf|))
    {
      ghost var d := Drain(load, src, prevSig);
      assert curBuf[curPos..] + d.data == d.data;
      assert load(src, prevSig) == LoadChunk(sign, src, prevSig);
      e := LoadNextChunk();
      if e.Some? {
        err := e;
      }
    }

    /** A read hands out the next bytes of the stream, at least one and at most as many as the
        buffer holds; once nothing is left it reports the end, then and ever after. */
    method Read(capacity: nat) returns (data: Bytes, e: Option<Error>)
      requires Valid()
      modifies this
      ensures Valid()
      ensures e.Some? <==> old(Remaining()).data == []
      ensures e.Some? ==> data == [] && old(Remaining()).end == e.value && Remaining() == old(Remaining())
      ensures e.None? ==> data + Remaining().data == old(Remaining()).data && Remaining().end == old(Remaining()).end
      ensures |data| <= capacity && (e.None? && capacity > 0 ==> data != [])
    {
      if err.Some? {
        return [], err;
      }
      while curPos >= |curBuf|
        invariant Valid() && err.None?
        invariant Remaining() == old(Remaining())
        decreases !done, |src|
      {
        if done {
          return [], Some(EOF);
        }
        e := Advance();
        if e.Some? {
          return [], e;
        }
      }
      data := Take(capacity);
      return data, None;
    }

    /** Copies buffered bytes out. */
    method Take(capacity: nat) returns (data: Bytes)
      requires Valid() && err.None? && curPos < |curBuf|
      modifies `curPos
      ensures Valid()
      ensures data + Remaining().data == old(Remaining()).data && Remaining().end == old(Remaining()).end
      ensures |data| <= capacity && (capacity > 0 ==> data != [])
    {
      var n := if |curBuf| - curPos <= capacity then |curBuf| - curPos else capacity;
      data := curBuf[curPos..curPos + n];
      SplitBuffer(curBuf, curPos, n, Drain(load, src, prevSig).data);
      curPos := curPos + n;
    }

    /** However the reads are sized, together they return the whole decoded stream and its end. */
    method ReadAll() returns (out: Bytes, end: Error)
      requires Valid()
      modifies this
      ensures Valid()
      ensures Decoded(out, end) == old(Remaining()) && Remaining() == Decoded([], end)
    {
      out := [];
      while true
        invariant Valid()
        invariant out + Remaining().data == old(Remaining()).data && Remaining().end == old(Remaining()).end
        decreases |Remaining().data|
      {
        var capacity: nat :| capacity > 0;
        var data, e := Read(capacity);
        if e.Some? {
          return out, e.value;
        }
        out := out + data;
      }
    }
  }
}

/** Percent-encoding as SigV4 signing uses it. */
module UriEncoding {
  import opened ByteStrings
  import opened Wrappers

  const PERCENT: Byte := 37
  const AMPERSAND: Byte := 38
  const EQUALS: Byte := 61

  /** RFC 3986 unreserved characters: letters, digits, '-', '.', '_' and '~'. */
  predicate Unreserved(c: Byte) {
    || 65 <= c <= 90
    || 97 <= c <= 122
    || 48 <= c <= 57
    || c == 45 || c == 46 || c == 95 || c == 126
  }

  function HexDigit(n: int): (c: Byte)
    requires 0 <= n < 16
    ensures HexNibble(c) == Some(n)
    ensures Unreserved(c)
  {
    if n < 10 then 48 + n else 55 + n
  }

  function HexNibble(c: Byte): (n: Option<int>)
    ensures n.Some? ==> 0 <= n.value < 16
  {
    if 48 <= c <= 57 then Some(c - 48)
    else if 97 <= c <= 102 then Some(c - 87)
    else if 65 <= c <= 70 then Some(c - 55)
    else None
  }

  function EncodeByte(c: Byte, encodeSlash: bool): Bytes {
    if Unreserved(c) || (c == SLASH && !encodeSlash) then [c]
    else [PERCENT, HexDigit(c / 16), HexDigit(c % 16)]
  }

  function UriEncode(s: Bytes, encodeSlash: bool): Bytes {
    if s == [] then [] else EncodeByte(s[0], encodeSlash) + UriEncode(s[1..], encodeSlash)
  }

  /** The decoded string, or None when an escape is malformed. */
  function PercentDecode(s: Bytes): Option<Bytes> {
    if s == [] then Some([])
    else if s[0] != PERCENT then
      match PercentDecode(s[1..])
      case None => None
      case Some(rest) => Some([s[0]] + rest)
    else if |s| < 3 then None
    else
      match (HexNibble(s[1]), HexNibble(s[2]), PercentDecode(s[3..]))
      case (Some(hi), Some(lo), Some(rest)) => Some([16 * hi + lo] + rest)
      case _ => None
  }

  lemma EncodeCons(s: Bytes, encodeSlash: bool)
    requires s != []
    ensures UriEncode(s, encodeSlash) == EncodeByte(s[0], encodeSlash) + UriEncode(s[1..], encodeSlash)
  {
  }

  lemma {:induction false} EncodeSnoc(s: Bytes, c: Byte, encodeSlash: bool)
    ensures UriEncode(s + [c], encodeSlash) == UriEncode(s, encodeSlash) + EncodeByte(c, encodeSlash)
  {
    if s == [] {
      assert s + [c] == [c];
      assert UriEncode([c], encodeSlash) == EncodeByte(c, encodeSlash) + UriEncode([], encodeSlash);
    } else {
      EncodeSnoc(s[1..], c, encodeSlash);
      assert (s + [c])[1..] == s[1..] + [c] && (s + [c])[0] == s[0];
      EncodeCons(s + [c], encodeSlash);
      EncodeCons(s, encodeSlash);
    }
  }

  method EncodeUri(s: Bytes, encodeSlash: bool) returns (out: Bytes)
    ensures out == UriEncode(s, encodeSlash)
  {
    out := [];
    for i := 0 to |s|
      invariant out == UriEncode(s[..i], encodeSlash)
    {
      EncodeSnoc(s[..i], s[i], encodeSlash);
      assert s[..i + 1] == s[..i] + [s[i]];
      var c := s[i];
      if Unreserved(c) {
        out := out + [c];
      } else if c == SLASH && !encodeSlash {
        out := out + [SLASH];
      } else {
        out := out + [PERCENT, HexDigit(c / 16), HexDigit(c % 16)];
      }
    }
    assert s[..|s|] == s;
  }

  /** Go returns the input unchanged together with false on a malformed escape. */
  method DecodePercent(s: Bytes) returns (out: Bytes, ok: bool)
    ensures ok <==> PercentDecode(s).Some?
    ensures out == if ok then PercentDecode(s).value else s
  {
    var buf: Bytes := [];
    var i := 0;
    assert s[0..] == s;
    assert PercentDecode(s).Some? ==> buf + PercentDecode(s).value == PercentDecode(s).value;
    while i < |s|
      invariant 0 <= i <= |s|
      invariant PercentDecode(s) == Prefixed(buf, PercentDecode(s[i..]))
      decreases |s| - i
    {
      var c := s[i];
      DecodeAt(s, i, buf);
      if c != PERCENT {
        buf := buf + [c];
        i := i + 1;
      } else {
        if i + 2 >= |s| {
          return s, false;
        }
        var hi, lo := HexNibble(s[i + 1]), HexNibble(s[i + 2]);
        if hi.None? || lo.None? {
          return s, false;
        }
        buf := buf + [16 * hi.value + lo.value];
        i := i + 3;
      }
    }
    return buf, true;
  }

  function Prefixed(buf: Bytes, rest: Option<Bytes>): Option<Bytes> {
    match rest
    case None => None
    case Some(r) => Some(buf + r)
  }

  lemma PrefixedSnoc(buf: Bytes, c: Byte, rest: Option<Bytes>)
    ensures Prefixed(buf, Prefixed([c], rest)) == Prefixed(buf + [c], rest)
  {
    if rest.Some? {
      assert buf + ([c] + rest.value) == buf + [c] + rest.value;
    }
  }

  /** One step of the decoder at position `i`. */
  lemma DecodeAt(s: Bytes, i: nat, buf: Bytes)
    requires i < |s|
    ensures Prefixed(buf, PercentDecode(s[i..])) ==
            if s[i] != PERCENT then Prefixed(buf + [s[i]], PercentDecode(s[i + 1..]))
            else if i + 2 >= |s| then None
            else if HexNibble(s[i + 1]).None? || HexNibble(s[i + 2]).None? then None
            else Prefixed(buf + [16 * HexNibble(s[i + 1]).value + HexNibble(s[i + 2]).value], PercentDecode(s[i + 3..]))
  {
    var t := s[i..];
    if s[i] != PERCENT {
      assert t[1..] == s[i + 1..];
      PrefixedSnoc(buf, s[i], PercentDecode(s[i + 1..]));
    } else if i + 2 < |s| {
      assert t[3..] == s[i + 3..];
      var hi, lo := HexNibble(s[i + 1]), HexNibble(s[i + 2]);
      if hi.Some? && lo.Some? {
        PrefixedSnoc(buf, 16 * hi.value + lo.value, PercentDecode(s[i + 3..]));
      }
    }
  }

  /** Decoding undoes encoding, for every byte string and either treatment of '/'. */
  lemma {:induction false} DecodeUndoesEncode(s: Bytes, encodeSlash: bool)
    ensures PercentDecode(UriEncode(s, encodeSlash)) == Some(s)
  {
    if s != [] {
      var e := EncodeByte(s[0], encodeSlash);
      var t := UriEncode(s[1..], encodeSlash);
      DecodeUndoesEncode(s[1..], encodeSlash);
      assert (e + t)[|e|..] == t;
      assert s == [s[0]] + s[1..];
    }
  }

  /** With slashes escaped, an encoded string holds only unreserved characters and '%'. */
  lemma {:induction false} EncodedAlphabet(s: Bytes)
    ensures forall i | 0 <= i < |UriEncode(s, true)| ::
              Unreserved(UriEncode(s, true)[i]) || UriEncode(s, true)[i] == PERCENT
  {
    if s != [] { EncodedAlphabet(s[1..]); }
  }

  // ----- What the encodings mean -----

  /** `c` is a hexadecimal digit of value `d`, in either case. */
  predicate DigitOf(c: Byte, d: int) {
    0 <= d < 16 && (c == "0123456789abcdef"[d] as int || c == UpperDigit(d))
  }

  function UpperDigit(d: int): Byte
    requires 0 <= d < 16
  {
    "0123456789ABCDEF"[d] as int
  }

  lemma HexNibbleIff(c: Byte, d: int)
    ensures HexNibble(c) == Some(d) <==> DigitOf(c, d)
  {
  }

  lemma HexDigitIsUpper(n: int)
    requires 0 <= n < 16
    ensures HexDigit(n) == UpperDigit(n)
  {
  }

  /** The unreserved characters of section 2.3 of RFC 3986, written out. */
  lemma UnreservedIff(c: Byte)
    ensures Unreserved(c) <==>
            || 'A' as int <= c <= 'Z' as int || 'a' as int <= c <= 'z' as int || '0' as int <= c <= '9' as int
            || exists i :: 0 <= i < 4 && c == "-._~"[i] as int
  {
    assert "-._~"[0] as int == 45 && "-._~"[1] as int == 46 && "-._~"[2] as int == 95 && "-._~"[3] as int == 126;
  }

  /** `piece` stands for the byte `c`: the byte itself, or an escape with its value. */
  ghost predicate StandsFor(piece: Bytes, c: Byte) {
    (piece == [c] && c != PERCENT) || IsEscape(piece, c)
  }

  ghost predicate IsEscape(piece: Bytes, c: Byte) {
    exists x, y, hi, lo :: piece == [PERCENT, x, y] && DigitOf(x, hi) && DigitOf(y, lo) && c == 16 * hi + lo
  }

  function Concat(pieces: seq<Bytes>): Bytes {
    if pieces == [] then [] else pieces[0] + Concat(pieces[1..])
  }

  /** `s` spells `d` byte for byte. */
  ghost predicate Spells(pieces: seq<Bytes>, s: Bytes, d: Bytes) {
    |pieces| == |d| && Concat(pieces) == s && forall i | 0 <= i < |d| :: StandsFor(pieces[i], d[i])
  }

  lemma {:induction false} DecodedIsSpelled(s: Bytes) returns (pieces: seq<Bytes>)
    requires PercentDecode(s).Some?
    ensures Spells(pieces, s, PercentDecode(s).value)
    decreases |s|
  {
    if s == [] {
      pieces := [];
    } else {
      var n := if s[0] == PERCENT then 3 else 1;
      var rest := DecodedIsSpelled(s[n..]);
      pieces := [s[..n]] + rest;
      assert pieces[1..] == rest && s == s[..n] + s[n..];
      if n == 3 {
        HexNibbleIff(s[1], HexNibble(s[1]).value);
        HexNibbleIff(s[2], HexNibble(s[2]).value);
        assert s[..3] == [PERCENT, s[1], s[2]];
      } else {
        assert s[..1] == [s[0]];
      }
      assert StandsFor(pieces[0], PercentDecode(s).value[0]);
    }
  }

  lemma DecodePlain(c: Byte, rest: Bytes)
    requires c != PERCENT
    ensures PercentDecode([c] + rest) == Prefixed([c], PercentDecode(rest))
  {
    assert ([c] + rest)[1..] == rest;
  }

  lemma DecodeEscape(x: Byte, y: Byte, hi: int, lo: int, rest: Bytes)
    requires HexNibble(x) == Some(hi) && HexNibble(y) == Some(lo)
    ensures PercentDecode([PERCENT, x, y] + rest) == Prefixed([16 * hi + lo], PercentDecode(rest))
  {
    assert ([PERCENT, x, y] + rest)[3..] == rest;
  }

  lemma PieceDecodes(piece: Bytes, c: Byte, rest: Bytes)
    requires StandsFor(piece, c)
    ensures PercentDecode(piece + rest) == Prefixed([c], PercentDecode(rest))
  {
    if IsEscape(piece, c) {
      var x, y, hi, lo :| piece == [PERCENT, x, y] && DigitOf(x, hi) && DigitOf(y, lo) && c == 16 * hi + lo;
      HexNibbleIff(x, hi);
      HexNibbleIff(y, lo);
      DecodeEscape(x, y, hi, lo, rest);
    } else {
      DecodePlain(c, rest);
    }
  }

  lemma {:induction false} SpelledIsDecoded(pieces: seq<Bytes>, s: Bytes, d: Bytes)
    requires Spells(pieces, s, d)
    ensures PercentDecode(s) == Some(d)
    decreases |pieces|
  {
    if pieces != [] {
      var rest := Concat(pieces[1..]);
      assert StandsFor(pieces[0], d[0]);
      assert forall i | 0 <= i < |d[1..]| :: StandsFor(pieces[1..][i], d[1..][i]);
      SpelledIsDecoded(pieces[1..], rest, d[1..]);
      PieceDecodes(pieces[0], d[0], rest);
      assert d == [d[0]] + d[1..];
    }
  }

  /** A text decodes to `d` exactly when it spells it, and to nothing when it spells nothing. */
  lemma PercentDecodeIff(s: Bytes, d: Bytes)
    ensures PercentDecode(s) == Some(d) <==> exists pieces :: Spells(pieces, s, d)
  {
    if PercentDecode(s) == Some(d) {
      var pieces := DecodedIsSpelled(s);
    }
    if pieces :| Spells(pieces, s, d) {
      SpelledIsDecoded(pieces, s, d);
    }
  }

  /** A byte that is written as itself. */
  predicate Plain(c: Byte, encodeSlash: bool) {
    Unreserved(c) || (c == SLASH && !encodeSlash)
  }

  /** Nothing but plain bytes and escapes of other bytes, with upper-case digits. */
  predicate Normal(e: Bytes, encodeSlash: bool) {
    e == [] ||
    if Plain(e[0], encodeSlash) then Normal(e[1..], encodeSlash)
    else
      e[0] == PERCENT && |e| >= 3 && NormalEscape(e[1], e[2], encodeSlash) && Normal(e[3..], encodeSlash)
  }

  /** Upper-case digits of a byte that is not written as itself. */
  predicate NormalEscape(x: Byte, y: Byte, encodeSlash: bool) {
    exists hi, lo | 0 <= hi < 16 && 0 <= lo < 16 ::
      x == UpperDigit(hi) && y == UpperDigit(lo) && !Plain(16 * hi + lo, encodeSlash)
  }

  lemma EscapeIsNormal(c: Byte, encodeSlash: bool)
    requires !Plain(c, encodeSlash)
    ensures NormalEscape(HexDigit(c / 16), HexDigit(c % 16), encodeSlash)
  {
    HexDigitIsUpper(c / 16);
    HexDigitIsUpper(c % 16);
    assert 16 * (c / 16) + c % 16 == c;
  }

  lemma NormalIsEscape(x: Byte, y: Byte, encodeSlash: bool) returns (c: Byte)
    requires NormalEscape(x, y, encodeSlash)
    ensures EncodeByte(c, encodeSlash) == [PERCENT, x, y]
  {
    var hi, lo :| 0 <= hi < 16 && 0 <= lo < 16 && x == UpperDigit(hi) && y == UpperDigit(lo)
      && !Plain(16 * hi + lo, encodeSlash);
    HexDigitIsUpper(hi);
    HexDigitIsUpper(lo);
    c := 16 * hi + lo;
    assert c / 16 == hi && c % 16 == lo;
  }

  lemma {:induction false} EncodedIsNormal(s: Bytes, encodeSlash: bool)
    ensures Normal(UriEncode(s, encodeSlash), encodeSlash)
  {
    if s != [] {
      var c, t := s[0], UriEncode(s[1..], encodeSlash);
      EncodedIsNormal(s[1..], encodeSlash);
      var e := EncodeByte(c, encodeSlash) + t;
      if Plain(c, encodeSlash) {
        assert e[1..] == t;
      } else {
        EscapeIsNormal(c, encodeSlash);
        assert e[3..] == t;
      }
    }
  }

  lemma {:induction false} NormalIsEncoded(e: Bytes, encodeSlash: bool) returns (s: Bytes)
    requires Normal(e, encodeSlash)
    ensures UriEncode(s, encodeSlash) == e
    decreases |e|
  {
    if e == [] {
      s := [];
    } else if Plain(e[0], encodeSlash) {
      var rest := NormalIsEncoded(e[1..], encodeSlash);
      s := [e[0]] + rest;
      EncodeFirst(e[0], rest, encodeSlash);
      assert e == [e[0]] + e[1..];
    } else {
      var c := NormalIsEscape(e[1], e[2], encodeSlash);
      var rest := NormalIsEncoded(e[3..], encodeSlash);
      s := [c] + rest;
      EncodeFirst(c, rest, encodeSlash);
      assert e == [PERCENT, e[1], e[2]] + e[3..];
    }
  }

  lemma EncodeFirst(c: Byte, d: Bytes, encodeSlash: bool)
    ensures UriEncode([c] + d, encodeSlash) == EncodeByte(c, encodeSlash) + UriEncode(d, encodeSlash)
  {
    assert ([c] + d)[1..] == d;
  }

  /** The encoding of `s` is the one normal text that decodes to it. */
  lemma EncodedIff(s: Bytes, e: Bytes, encodeSlash: bool)
    ensures e == UriEncode(s, encodeSlash) <==> Normal(e, encodeSlash) && PercentDecode(e) == Some(s)
  {
    if e == UriEncode(s, encodeSlash) {
      EncodedIsNormal(s, encodeSlash);
      DecodeUndoesEncode(s, encodeSlash);
    }
    if Normal(e, encodeSlash) {
      var d := NormalIsEncoded(e, encodeSlash);
      DecodeUndoesEncode(d, encodeSlash);
    }
  }
}

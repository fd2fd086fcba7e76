/** The object keys the gateway accepts (adapter/s3/object.go): bounded, valid UTF-8, made of
    plain path segments, and outside the names the gateway keeps for itself. */
module ObjectKeys {
  import opened ByteStrings

  // ----- UTF-8 -----

  predicate Continuation(c: int) { 0x80 <= c <= 0xBF }

  /** Length of the well-formed UTF-8 sequence `s` starts with, or 0. */
  function RuneLength(s: Bytes): (n: nat)
    ensures n <= |s|
    ensures forall i | 0 <= i < n :: s[i] <= 0xF4
  {
    if s == [] then 0
    else if s[0] < 0x80 then 1
    else if |s| < 2 || s[0] < 0xC2 then 0
    else if s[0] <= 0xDF then if Continuation(s[1]) then 2 else 0
    else if |s| < 3 then 0
    else if s[0] <= 0xEF then
      var lo := if s[0] == 0xE0 then 0xA0 else 0x80;
      var hi := if s[0] == 0xED then 0x9F else 0xBF;
      if lo <= s[1] <= hi && Continuation(s[2]) then 3 else 0
    else if |s| < 4 || s[0] > 0xF4 then 0
    else
      var lo := if s[0] == 0xF0 then 0x90 else 0x80;
      var hi := if s[0] == 0xF4 then 0x8F else 0xBF;
      if lo <= s[1] <= hi && Continuation(s[2]) && Continuation(s[3]) then 4 else 0
  }

  predicate ValidUtf8(s: Bytes)
    decreases |s|
  {
    s == [] || (RuneLength(s) > 0 && ValidUtf8(s[RuneLength(s)..]))
  }

  /** A Unicode scalar value: a code point that is not a surrogate. */
  predicate Scalar(c: nat) {
    c < 0xD800 || 0xE000 <= c <= 0x10FFFF
  }

  /** The UTF-8 form of one scalar value (section 3 of RFC 3629). */
  function EncodeRune(c: nat): (b: Bytes)
    requires Scalar(c)
    ensures 1 <= |b| <= 4
  {
    if c < 0x80 then [c]
    else if c < 0x800 then [0xC0 + c / 64, 0x80 + c % 64]
    else if c < 0x10000 then [0xE0 + c / 4096, 0x80 + c / 64 % 64, 0x80 + c % 64]
    else [0xF0 + c / 262144, 0x80 + c / 4096 % 64, 0x80 + c / 64 % 64, 0x80 + c % 64]
  }

  predicate Scalars(cs: seq<nat>) {
    forall i | 0 <= i < |cs| :: Scalar(cs[i])
  }

  function EncodeRunes(cs: seq<nat>): Bytes
    requires Scalars(cs)
  {
    if cs == [] then [] else EncodeRune(cs[0]) + EncodeRunes(cs[1..])
  }

  /** The form of a scalar value is recognised, whatever follows it. */
  lemma RuneIsRecognised(c: nat, rest: Bytes)
    requires Scalar(c)
    ensures RuneLength(EncodeRune(c) + rest) == |EncodeRune(c)|
  {
    var e := EncodeRune(c);
    var s := e + rest;
    assert s[0] == e[0] && (|e| > 1 ==> s[1] == e[1]) && (|e| > 2 ==> s[2] == e[2]) && (|e| > 3 ==> s[3] == e[3]);
    if 0x800 <= c < 0x10000 {
      LeadOfThree(c);
    } else if 0x10000 <= c {
      LeadOfFour(c);
    }
  }

  lemma LeadOfThree(c: nat)
    requires Scalar(c) && 0x800 <= c < 0x10000
    ensures 0 <= c / 4096 <= 15 && (c / 4096 == 0 ==> c / 64 % 64 >= 0x20) && (c / 4096 == 13 ==> c / 64 % 64 <= 0x1F)
  {
    assert c / 64 == 64 * (c / 4096) + c / 64 % 64;
  }

  lemma LeadOfFour(c: nat)
    requires Scalar(c) && 0x10000 <= c
    ensures 0 <= c / 262144 <= 4
    ensures (c / 262144 == 0 ==> c / 4096 % 64 >= 0x10) && (c / 262144 == 4 ==> c / 4096 % 64 <= 0x0F)
  {
    assert c / 4096 == 64 * (c / 262144) + c / 4096 % 64;
  }

  /** The base-64 digits of a number built from them. */
  lemma Digits(hi: nat, x: nat, y: nat, z: nat)
    requires x < 64 && y < 64 && z < 64
    ensures var c := 262144 * hi + 4096 * x + 64 * y + z;
            c / 262144 == hi && c / 4096 == 64 * hi + x && c / 4096 % 64 == x
            && c / 64 == 4096 * hi + 64 * x + y && c / 64 % 64 == y && c % 64 == z
  {
  }

  /** Whatever is recognised is the form of a scalar value. */
  lemma RecognisedIsRune(s: Bytes) returns (c: nat)
    requires RuneLength(s) > 0
    ensures Scalar(c) && s[..RuneLength(s)] == EncodeRune(c)
  {
    var n := RuneLength(s);
    if n == 1 {
      c := s[0];
    } else if n == 2 {
      c := RecognisedPair(s[0], s[1]);
      assert s[..2] == [s[0], s[1]];
    } else if n == 3 {
      c := RecognisedTriple(s[0], s[1], s[2]);
      assert s[..3] == [s[0], s[1], s[2]];
    } else {
      c := RecognisedQuad(s[0], s[1], s[2], s[3]);
      assert s[..4] == [s[0], s[1], s[2], s[3]];
    }
  }

  lemma RecognisedPair(a: int, b: int) returns (c: nat)
    requires 0xC2 <= a <= 0xDF && Continuation(b)
    ensures Scalar(c) && EncodeRune(c) == [a, b]
  {
    c := 64 * (a - 0xC0) + (b - 0x80);
    Digits(0, 0, a - 0xC0, b - 0x80);
  }

  lemma RecognisedTriple(a: int, b: int, d: int) returns (c: nat)
    requires 0xE0 <= a <= 0xEF && Continuation(b) && Continuation(d)
    requires (a == 0xE0 ==> b >= 0xA0) && (a == 0xED ==> b <= 0x9F)
    ensures Scalar(c) && EncodeRune(c) == [a, b, d]
  {
    c := 4096 * (a - 0xE0) + 64 * (b - 0x80) + (d - 0x80);
    Digits(0, a - 0xE0, b - 0x80, d - 0x80);
  }

  lemma RecognisedQuad(a: int, b: int, d: int, e: int) returns (c: nat)
    requires 0xF0 <= a <= 0xF4 && Continuation(b) && Continuation(d) && Continuation(e)
    requires (a == 0xF0 ==> b >= 0x90) && (a == 0xF4 ==> b <= 0x8F)
    ensures Scalar(c) && EncodeRune(c) == [a, b, d, e]
  {
    c := 262144 * (a - 0xF0) + 4096 * (b - 0x80) + 64 * (d - 0x80) + (e - 0x80);
    Digits(a - 0xF0, b - 0x80, d - 0x80, e - 0x80);
  }

  lemma {:induction false} EncodedRunesAreValid(cs: seq<nat>)
    requires Scalars(cs)
    ensures ValidUtf8(EncodeRunes(cs))
  {
    if cs != [] {
      var rest := EncodeRunes(cs[1..]);
      RuneIsRecognised(cs[0], rest);
      EncodedRunesAreValid(cs[1..]);
      assert (EncodeRune(cs[0]) + rest)[|EncodeRune(cs[0])|..] == rest;
    }
  }

  lemma FirstRune(s: Bytes) returns (c: nat, rest: Bytes)
    requires ValidUtf8(s) && s != []
    ensures Scalar(c) && s == EncodeRune(c) + rest && ValidUtf8(rest) && |rest| < |s|
  {
    var n := RuneLength(s);
    c := RecognisedIsRune(s);
    rest := s[n..];
    assert s == s[..n] + rest;
  }

  lemma {:induction false} ValidIsEncodedRunes(s: Bytes) returns (cs: seq<nat>)
    requires ValidUtf8(s)
    ensures Scalars(cs) && EncodeRunes(cs) == s
    decreases |s|
  {
    cs := [];
    if s != [] {
      var c, rest := FirstRune(s);
      var more := ValidIsEncodedRunes(rest);
      cs := [c] + more;
      EncodeFirst(c, more);
    }
  }

  lemma EncodeFirst(c: nat, rest: seq<nat>)
    requires Scalar(c) && Scalars(rest)
    ensures Scalars([c] + rest) && EncodeRunes([c] + rest) == EncodeRune(c) + EncodeRunes(rest)
  {
    assert ([c] + rest)[1..] == rest;
  }

  /** A byte string is accepted as UTF-8 exactly when it encodes some scalar values. */
  lemma ValidUtf8Iff(s: Bytes)
    ensures ValidUtf8(s) <==> exists cs :: Scalars(cs) && EncodeRunes(cs) == s
  {
    if ValidUtf8(s) {
      var cs := ValidIsEncodedRunes(s);
    }
    if cs :| Scalars(cs) && EncodeRunes(cs) == s {
      EncodedRunesAreValid(cs);
    }
  }

  // ----- Searching -----

  predicate OccursAt(s: Bytes, sub: Bytes, i: nat) {
    i + |sub| <= |s| && forall k | 0 <= k < |sub| :: s[i + k] == sub[k]
  }

  /** Go's strings.Index on the text behind `from`, as a position in `s`; -1 when `sub` does not occur. */
  function IndexFrom(s: Bytes, sub: Bytes, from: nat): (i: int)
    requires from <= |s|
    ensures i == -1 || (from <= i && OccursAt(s, sub, i))
    decreases |s| - from
  {
    if OccursAt(s, sub, from) then from
    else if from == |s| then -1
    else IndexFrom(s, sub, from + 1)
  }

  /** The result is the first occurrence at or behind `from`, and -1 means there is none. */
  lemma {:induction false} IndexFromIsFirst(s: Bytes, sub: Bytes, from: nat)
    requires from <= |s|
    ensures IndexFrom(s, sub, from) == -1 <==> forall j: nat | from <= j :: !OccursAt(s, sub, j)
    ensures forall j: nat | from <= j < IndexFrom(s, sub, from) :: !OccursAt(s, sub, j)
    decreases |s| - from
  {
    if !OccursAt(s, sub, from) && from < |s| {
      IndexFromIsFirst(s, sub, from + 1);
    }
  }

  // ----- Keys -----

  function Ascii(s: string): (b: Bytes)
    requires forall i | 0 <= i < |s| :: s[i] as int < 128
    ensures |b| == |s|
  {
    seq(|s|, i requires 0 <= i < |s| => s[i] as int)
  }

  predicate Contains(s: Bytes, sub: Bytes) {
    IndexFrom(s, sub, 0) >= 0
  }

  /** A path segment reserved by the gateway or meaningless in a key. */
  predicate ReservedSegment(seg: Bytes) {
    || seg == [] || seg == Ascii(".") || seg == Ascii("..")
    || seg == Ascii(".fg-versions") || seg == Ascii(".fg-uploads")
    || (Ascii(".") <= seg && Contains(seg, Ascii(".filegate-tmp-")))
  }

  /** The supported subset of S3 object keys. */
  predicate ValidObjectKey(key: Bytes) {
    && key != [] && |key| <= 1024
    && ValidUtf8(key)
    && Lacks(key, 0)
    && key[|key| - 1] != SLASH
    && forall seg | seg in Split(key, SLASH) :: !ReservedSegment(seg)
  }

  /** The names the gateway keeps for itself, and those with a meaning of their own in a path. */
  ghost predicate InternalName(seg: Bytes) {
    || seg in {Ascii("."), Ascii(".."), Ascii(".fg-versions"), Ascii(".fg-uploads")}
    || (|seg| > 0 && seg[0] == '.' as int && exists i: nat :: OccursAt(seg, Ascii(".filegate-tmp-"), i))
  }

  lemma ReservedIffInternal(seg: Bytes)
    ensures ReservedSegment(seg) <==> seg == [] || InternalName(seg)
  {
    IndexFromIsFirst(seg, Ascii(".filegate-tmp-"), 0);
    assert Ascii(".") == ['.' as int];
  }

  /** A key is accepted exactly when it is the text of at most 1024 bytes of some plain path:
      segments joined by slashes, none empty, none internal, without NUL. */
  lemma ValidObjectKeyIff(key: Bytes)
    ensures ValidObjectKey(key) <==>
            && |key| <= 1024
            && (exists cs :: Scalars(cs) && EncodeRunes(cs) == key)
            && Lacks(key, 0)
            && exists segs :: segs != [] && PlainSegments(segs) && Join(segs, SLASH) == key
  {
    ValidUtf8Iff(key);
    forall seg ensures ReservedSegment(seg) <==> seg == [] || InternalName(seg) {
      ReservedIffInternal(seg);
    }
    JoinUndoesSplit(key, SLASH);
    if ValidObjectKey(key) {
      assert PlainSegments(Split(key, SLASH));
    }
    if segs :| segs != [] && PlainSegments(segs) && Join(segs, SLASH) == key {
      SplitUndoesJoin(segs, SLASH);
      JoinEnds(segs, SLASH);
    }
  }

  ghost predicate PlainSegments(segs: seq<Bytes>) {
    forall seg | seg in segs :: seg != [] && Lacks(seg, SLASH) && !InternalName(seg)
  }

  /** Non-empty parts without separators join to a text that does not end in a separator. */
  lemma {:induction false} JoinEnds(parts: seq<Bytes>, sep: Byte)
    requires parts != [] && forall p | p in parts :: p != [] && Lacks(p, sep)
    ensures var s := Join(parts, sep); s != [] && s[|s| - 1] != sep
  {
    assert parts[0] in parts;
    if |parts| > 1 {
      assert forall p | p in parts[1..] :: p in parts;
      JoinEnds(parts[1..], sep);
    }
  }
}

/** The If-Match header: which stored ETags satisfy it under strong comparison. */
module IfMatch {
  import opened ByteStrings

  const QUOTE: Byte := 34
  const COMMA: Byte := 44
  const STAR: Byte := 42

  /** "W/" */
  const WEAK: Bytes := [87, SLASH]

  function Unquote(s: Bytes): Bytes {
    Trim(s, (b: Byte) => b == QUOTE)
  }

  /** One list element matches: it is not weak and equals the ETag once quotes are dropped. */
  predicate CandidateMatches(candidate: Bytes, current: Bytes) {
    var c := TrimSpace(candidate);
    !(WEAK <= c) && Unquote(c) == current
  }

  /** Whether the header is satisfied by the stored ETag, which is empty when none is known. */
  predicate Satisfied(condition: Bytes, current: Bytes) {
    var c := TrimSpace(condition);
    if c == [STAR] then current != []
    else exists candidate | candidate in Split(c, COMMA) :: CandidateMatches(candidate, Unquote(current))
  }

  method IfMatchSatisfied(condition: Bytes, current: Bytes) returns (r: bool)
    ensures r == Satisfied(condition, current)
  {
    var c := TrimSpace(condition);
    if c == [STAR] {
      return current != [];
    }
    var parts, tag := Split(c, COMMA), Unquote(current);
    for i := 0 to |parts|
      invariant forall k | 0 <= k < i :: !CandidateMatches(parts[k], tag)
    {
      var candidate := TrimSpace(parts[i]);
      if WEAK <= candidate {
        continue;
      }
      if Unquote(candidate) == tag {
        assert CandidateMatches(parts[i], tag);
        return true;
      }
    }
    return false;
  }

  // ----- Headers as clients write them -----

  datatype ETag = ETag(weak: bool, tag: Bytes)

  /** An opaque tag: not empty, and neither quote nor comma in it. */
  predicate Opaque(tag: Bytes) {
    tag != [] && Lacks(tag, QUOTE) && Lacks(tag, COMMA)
  }

  function Quoted(tag: Bytes): Bytes {
    [QUOTE] + tag + [QUOTE]
  }

  /** A list element, with or without the customary space after the comma. */
  function Written(e: ETag, spaced: bool): Bytes {
    (if spaced then [32] else []) + ((if e.weak then WEAK else []) + Quoted(e.tag))
  }

  function Parts(tags: seq<ETag>, spaced: bool): seq<Bytes> {
    seq(|tags|, i requires 0 <= i < |tags| => Written(tags[i], spaced && i > 0))
  }

  function Header(tags: seq<ETag>, spaced: bool): Bytes {
    Join(Parts(tags, spaced), COMMA)
  }

  lemma TrimKeeps(s: Bytes, drop: Byte -> bool)
    requires s != [] && !drop(s[0]) && !drop(s[|s| - 1])
    ensures Trim(s, drop) == s
  {
  }

  lemma UnquoteQuoted(tag: Bytes)
    requires Opaque(tag)
    ensures Unquote(Quoted(tag)) == tag && Unquote(tag) == tag
  {
    var drop := (b: Byte) => b == QUOTE;
    var q := Quoted(tag);
    assert q[1..] == tag + [QUOTE];
    assert TrimLeft(q, drop) == TrimLeft(tag + [QUOTE], drop) == tag + [QUOTE];
    assert (tag + [QUOTE])[..|tag|] == tag;
    assert TrimRight(tag + [QUOTE], drop) == TrimRight(tag, drop) == tag;
    TrimKeeps(tag, drop);
  }

  lemma UnquoteNothing()
    ensures Unquote([]) == [] && Unquote(Quoted([])) == []
  {
    var none: Bytes := [];
    UnquotedAwayIff(none);
    UnquotedAwayIff(Quoted(none));
  }

  predicate OnlyQuotes(s: Bytes) {
    forall i | 0 <= i < |s| :: s[i] == QUOTE
  }

  lemma {:induction false} LeftTrimmedAway(s: Bytes, drop: Byte -> bool)
    ensures TrimLeft(s, drop) == [] <==> forall i | 0 <= i < |s| :: drop(s[i])
  {
    if s != [] && drop(s[0]) {
      LeftTrimmedAway(s[1..], drop);
      assert forall i | 1 <= i < |s| :: s[i] == s[1..][i - 1];
    }
  }

  lemma UnquotedAwayIff(s: Bytes)
    ensures Unquote(s) == [] <==> OnlyQuotes(s)
  {
    var drop := (b: Byte) => b == QUOTE;
    LeftTrimmedAway(s, drop);
    TrimLeftSheds(s, drop);
    TrimRightSheds(TrimLeft(s, drop), drop);
  }

  lemma TrimWritten(e: ETag, spaced: bool)
    ensures TrimSpace(Written(e, spaced)) == Written(e, false)
  {
    var drop := (b: Byte) => Space(b);
    var w := Written(e, false);
    assert Written(e, true)[1..] == w;
    assert w[|w| - 1] == QUOTE && (w[0] == QUOTE || w[0] == 87);
    TrimKeeps(w, drop);
    assert TrimLeft(Written(e, true), drop) == TrimLeft(w, drop) == w;
  }

  lemma WrittenMatches(e: ETag, spaced: bool, current: Bytes)
    requires Opaque(e.tag)
    ensures CandidateMatches(Written(e, spaced), current) <==> !e.weak && e.tag == current
  {
    TrimWritten(e, spaced);
    UnquoteQuoted(e.tag);
    if e.weak {
      assert Written(e, false)[..2] == WEAK;
    } else {
      assert Written(e, false) == Quoted(e.tag);
      assert Quoted(e.tag)[0] == QUOTE;
    }
  }

  predicate Element(p: Bytes) {
    |p| >= 3 && p[|p| - 1] == QUOTE && Lacks(p, COMMA)
  }

  lemma WrittenIsElement(e: ETag, spaced: bool)
    requires Opaque(e.tag)
    ensures Element(Written(e, spaced))
  {
  }

  lemma {:induction false} JoinEnds(parts: seq<Bytes>)
    requires parts != [] && forall i | 0 <= i < |parts| :: Element(parts[i])
    ensures var s := Join(parts, COMMA);
            |s| >= 3 && |parts[0]| > 0 && s[0] == parts[0][0] && s[|s| - 1] == QUOTE
  {
    if |parts| > 1 {
      JoinEnds(parts[1..]);
    }
  }

  lemma PartsAreElements(tags: seq<ETag>, spaced: bool)
    requires forall e | e in tags :: Opaque(e.tag)
    ensures forall i | 0 <= i < |tags| :: Element(Parts(tags, spaced)[i])
  {
    forall i | 0 <= i < |tags| ensures Element(Parts(tags, spaced)[i]) {
      assert tags[i] in tags;
      WrittenIsElement(tags[i], spaced && i > 0);
    }
  }

  lemma HeaderEdges(tags: seq<ETag>, spaced: bool)
    requires tags != [] && forall e | e in tags :: Opaque(e.tag)
    ensures var h := Header(tags, spaced);
            |h| >= 3 && (h[0] == QUOTE || h[0] == WEAK[0]) && h[|h| - 1] == QUOTE
  {
    PartsAreElements(tags, spaced);
    JoinEnds(Parts(tags, spaced));
    assert Parts(tags, spaced)[0] == Written(tags[0], false);
  }

  lemma HeaderSplits(tags: seq<ETag>, spaced: bool)
    requires tags != [] && forall e | e in tags :: Opaque(e.tag)
    ensures var h := Header(tags, spaced);
            TrimSpace(h) == h != [STAR] && Split(h, COMMA) == Parts(tags, spaced)
  {
    HeaderEdges(tags, spaced);
    TrimKeeps(Header(tags, spaced), (b: Byte) => Space(b));
    PartsAreElements(tags, spaced);
    SplitUndoesJoin(Parts(tags, spaced), COMMA);
  }

  /** A list of ETags is satisfied exactly by a stored ETag that one of its strong members names. */
  lemma ListMatchesStrongMembers(tags: seq<ETag>, spaced: bool, current: Bytes)
    requires tags != [] && (forall e | e in tags :: Opaque(e.tag)) && (current == [] || Opaque(current))
    ensures Satisfied(Header(tags, spaced), current) <==> ETag(false, current) in tags
    ensures Satisfied(Header(tags, spaced), Quoted(current)) <==> ETag(false, current) in tags
  {
    HeaderSplits(tags, spaced);
    if current == [] {
      UnquoteNothing();
    } else {
      UnquoteQuoted(current);
    }
    var parts := Parts(tags, spaced);
    forall i | 0 <= i < |tags|
      ensures CandidateMatches(parts[i], current) <==> tags[i] == ETag(false, current)
    {
      assert tags[i] in tags;
      WrittenMatches(tags[i], spaced && i > 0, current);
    }
    if ETag(false, current) in tags {
      var i :| 0 <= i < |tags| && tags[i] == ETag(false, current);
      assert parts[i] in parts;
    }
  }

  /** An object whose ETag is not known satisfies a header if and only if the header is not "*"
      and one of its elements is blank or has nothing but quotes. */
  lemma UnknownETagMatchesIff(condition: Bytes)
    ensures var c := TrimSpace(condition);
            Satisfied(condition, []) <==>
            c != [STAR] && exists part :: part in Split(c, COMMA) && OnlyQuotes(TrimSpace(part))
  {
    var c := TrimSpace(condition);
    UnquoteNothing();
    forall part | part in Split(c, COMMA)
      ensures CandidateMatches(part, []) <==> OnlyQuotes(TrimSpace(part))
    {
      var p := TrimSpace(part);
      UnquotedAwayIff(p);
      if WEAK <= p {
        assert p[0] == 87;
      }
    }
  }

  lemma TrailingCommaSplits(tags: seq<ETag>, spaced: bool)
    requires tags != [] && forall e | e in tags :: Opaque(e.tag)
    ensures var h := Header(tags, spaced) + [COMMA];
            TrimSpace(h) == h != [STAR] && Split(h, COMMA) == Parts(tags, spaced) + [[]]
  {
    HeaderEdges(tags, spaced);
    TrimKeeps(Header(tags, spaced) + [COMMA], (b: Byte) => Space(b));
    PartsAreElements(tags, spaced);
    var none: Bytes := [];
    JoinSnoc(Parts(tags, spaced), none, COMMA);
    assert Join(Parts(tags, spaced) + [none], COMMA) == Header(tags, spaced) + [COMMA];
    SplitUndoesJoin(Parts(tags, spaced) + [none], COMMA);
  }

  /** So a list with a comma left at its end is satisfied although no member is. */
  lemma TrailingCommaMatchesUnknown(tags: seq<ETag>, spaced: bool)
    requires tags != [] && forall e | e in tags :: Opaque(e.tag)
    ensures Satisfied(Header(tags, spaced) + [COMMA], []) && !Satisfied(Header(tags, spaced), [])
  {
    ListMatchesStrongMembers(tags, spaced, []);
    TrailingCommaSplits(tags, spaced);
    UnknownETagMatchesIff(Header(tags, spaced) + [COMMA]);
    var none: Bytes := [];
    assert none in Parts(tags, spaced) + [none] && OnlyQuotes(TrimSpace(none));
  }
}

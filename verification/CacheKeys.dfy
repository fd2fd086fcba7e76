/** Cache keys: virtual paths as strings, how they are normalised, and the prefix test. */
module CacheKeys {
  import opened ByteStrings
  import opened PathLocks

  type Name = Bytes

  const BACKSLASH: Byte := 92
  const DOT: Byte := 46
  const DOTS: Name := [DOT, DOT]

  /** A path segment as the filesystem admits it: not empty, no slash, and not a dot segment. */
  predicate SegmentName(n: Name) {
    n != [] && Lacks(n, SLASH) && n != [DOT] && n != DOTS
  }

  predicate SegmentPath(path: seq<Name>) {
    path != [] && forall n | n in path :: SegmentName(n)
  }

  /** A path that is its own cache key however often it is normalised. */
  predicate PlainPath(path: seq<Name>) {
    && SegmentPath(path)
    && var key := Join(path, SLASH);
       Lacks(key, BACKSLASH) && key != [] && !Space(key[0]) && !Space(key[|key| - 1])
  }

  predicate SlashFree(path: seq<Name>) {
    path != [] && forall n | n in path :: Lacks(n, SLASH)
  }

  function TrimSlashes(s: Bytes): Bytes {
    Trim(s, (b: Byte) => b == SLASH)
  }

  function TrimPrefix(s: Bytes): Bytes {
    if s != [] && s[0] == SLASH then s[1..] else s
  }

  function SlashBackslashes(s: Bytes): Bytes {
    seq(|s|, i requires 0 <= i < |s| => if s[i] == BACKSLASH then SLASH else s[i])
  }

  /** The segments path.Clean keeps of a relative path. */
  function CleanSegments(parts: seq<Name>): seq<Name> {
    if parts == [] then [] else CleanStep(CleanSegments(parts[..|parts| - 1]), parts[|parts| - 1])
  }

  function CleanStep(out: seq<Name>, n: Name): seq<Name> {
    if n == [] || n == [DOT] then out
    else if n == DOTS && out != [] && out[|out| - 1] != DOTS then out[..|out| - 1]
    else out + [n]
  }

  function CleanPath(s: Bytes): Bytes {
    var out := CleanSegments(Split(s, SLASH));
    if out == [] then [DOT] else Join(out, SLASH)
  }

  /** The key a virtual path is cached and invalidated under; empty for the root. */
  function NormalizeKey(v: Bytes): Bytes {
    var t := TrimSpace(v);
    if t == [] || t == [SLASH] then []
    else
      var c := CleanPath(TrimSlashes(SlashBackslashes(TrimPrefix(t))));
      if c == [DOT] then [] else c
  }

  // ----- Paths as strings -----

  lemma JoinInjective(p: seq<Name>, q: seq<Name>)
    requires SlashFree(p) && SlashFree(q) && Join(p, SLASH) == Join(q, SLASH)
    ensures p == q
  {
    SplitUndoesJoin(p, SLASH);
    SplitUndoesJoin(q, SLASH);
  }

  lemma {:induction false} JoinAppend(p: seq<Name>, q: seq<Name>)
    requires p != [] && q != []
    ensures Join(p + q, SLASH) == Join(p, SLASH) + [SLASH] + Join(q, SLASH)
  {
    if |p| == 1 {
      assert (p + q)[1..] == q && (p + q)[0] == p[0];
    } else {
      JoinAppend(p[1..], q);
      assert (p + q)[1..] == p[1..] + q && (p + q)[0] == p[0];
    }
  }

  lemma ExtensionHasPrefix(p: seq<Name>, q: seq<Name>)
    requires SlashFree(p) && SlashFree(q) && Join(p, SLASH) + [SLASH] <= Join(q, SLASH)
    ensures p <= q
  {
    var a, b := Join(p, SLASH), Join(q, SLASH);
    SplitUndoesJoin(p, SLASH);
    SplitUndoesJoin(q, SLASH);
    assert b == a + [SLASH] + b[|a| + 1..];
    SplitAppend(a, b[|a| + 1..], SLASH);
  }

  /** The string test "equal, or continuing after a slash" is exactly the subtree relation
      between the paths. */
  lemma PrefixTestIsSubtree(p: seq<Name>, q: seq<Name>)
    requires SlashFree(p) && SlashFree(q)
    ensures AncestorOrEqual(Join(p, SLASH), Join(q, SLASH)) <==> p <= q
  {
    if p < q {
      assert q == p + q[|p|..];
      JoinAppend(p, q[|p|..]);
    } else if Join(p, SLASH) == Join(q, SLASH) {
      JoinInjective(p, q);
    } else if AncestorOrEqual(Join(p, SLASH), Join(q, SLASH)) {
      ExtensionHasPrefix(p, q);
    }
  }

  // ----- Cleaning -----

  /** Where a relative path leads: so many levels up from the start, and down these names. */
  datatype Spot = Spot(ups: nat, names: seq<Name>)

  function Walk(parts: seq<Name>): Spot {
    if parts == [] then Spot(0, []) else WalkStep(Walk(parts[..|parts| - 1]), parts[|parts| - 1])
  }

  function WalkStep(at: Spot, n: Name): Spot {
    if n == [] || n == [DOT] then at
    else if n != DOTS then at.(names := at.names + [n])
    else if at.names == [] then at.(ups := at.ups + 1)
    else at.(names := at.names[..|at.names| - 1])
  }

  predicate NoDots(names: seq<Name>) {
    forall i | 0 <= i < |names| :: names[i] != [] && names[i] != [DOT] && names[i] != DOTS
  }

  function Ups(n: nat): seq<Name> {
    if n == 0 then [] else Ups(n - 1) + [DOTS]
  }

  /** A cleaned path spells where the path leads, in the shortest way: the levels up, then the
      names down, no empty or dot segments among them. */
  lemma {:induction false} CleanSpellsTheWalk(parts: seq<Name>)
    ensures CleanSegments(parts) == Ups(Walk(parts).ups) + Walk(parts).names && NoDots(Walk(parts).names)
  {
    if parts != [] {
      var init, n := parts[..|parts| - 1], parts[|parts| - 1];
      CleanSpellsTheWalk(init);
      CleanStepWalks(Walk(init), n);
    }
  }

  lemma CleanStepWalks(at: Spot, n: Name)
    requires NoDots(at.names)
    ensures var to := WalkStep(at, n);
            CleanStep(Ups(at.ups) + at.names, n) == Ups(to.ups) + to.names && NoDots(to.names)
  {
    var out := Ups(at.ups) + at.names;
    if at.names == [] {
      assert out == Ups(at.ups) && Ups(at.ups + 1) + at.names == Ups(at.ups + 1);
    } else {
      assert out[|out| - 1] == at.names[|at.names| - 1];
      assert out[..|out| - 1] == Ups(at.ups) + at.names[..|at.names| - 1];
    }
    assert out + [n] == Ups(at.ups) + (at.names + [n]);
  }

  /** What cleaning keeps are names it was given, none of them empty or a single dot. */
  lemma {:induction false} CleanPicks(parts: seq<Name>, m: Name)
    requires m in CleanSegments(parts)
    ensures m in parts && m != [] && m != [DOT]
  {
    var init, n := parts[..|parts| - 1], parts[|parts| - 1];
    assert parts == init + [n];
    if m in CleanSegments(init) {
      CleanPicks(init, m);
    }
  }

  lemma CleanKeepsLack(parts: seq<Name>, c: Byte)
    requires forall n | n in parts :: Lacks(n, c)
    ensures forall n | n in CleanSegments(parts) :: Lacks(n, c)
  {
    forall n | n in CleanSegments(parts) ensures Lacks(n, c) {
      CleanPicks(parts, n);
    }
  }

  /** Cleaning keeps the number of names only by keeping them all. */
  lemma {:induction false} CleanFull(parts: seq<Name>)
    ensures |CleanSegments(parts)| <= |parts|
    ensures |CleanSegments(parts)| == |parts| ==> CleanSegments(parts) == parts
  {
    if parts != [] {
      CleanFull(parts[..|parts| - 1]);
      assert parts == parts[..|parts| - 1] + [parts[|parts| - 1]];
    }
  }

  lemma {:induction false} CleanKeepsSegments(p: seq<Name>)
    requires forall n | n in p :: SegmentName(n)
    ensures CleanSegments(p) == p
  {
    if p != [] {
      CleanKeepsSegments(p[..|p| - 1]);
      assert p[|p| - 1] in p;
    }
  }

  lemma CleanSnoc(parts: seq<Name>, n: Name)
    ensures CleanSegments(parts + [n]) == CleanStep(CleanSegments(parts), n)
  {
    assert (parts + [n])[..|parts|] == parts;
  }

  lemma {:induction false} CleanDropsLeading(none: Name, parts: seq<Name>)
    requires none == []
    ensures CleanSegments([none] + parts) == CleanSegments(parts)
  {
    if parts == [] {
      CleanSnoc([], none);
      assert [none] + parts == [] + [none];
    } else {
      var init, n := parts[..|parts| - 1], parts[|parts| - 1];
      CleanDropsLeading(none, init);
      CleanSnoc([none] + init, n);
      assert [none] + parts == [none] + init + [n];
    }
  }

  /** The segments of a text, cleaned. */
  function Cleaned(s: Bytes): seq<Name> {
    CleanSegments(Split(s, SLASH))
  }

  lemma LeadingSlash(s: Bytes)
    ensures Cleaned([SLASH] + s) == Cleaned(s)
  {
    assert ([SLASH] + s)[1..] == s;
    CleanDropsLeading([], Split(s, SLASH));
  }

  lemma TrailingSlash(s: Bytes)
    ensures Cleaned(s + [SLASH]) == Cleaned(s)
  {
    var none: Bytes := [];
    assert s + [SLASH] + none == s + [SLASH];
    SplitAppend(s, none, SLASH);
    CleanSnoc(Split(s, SLASH), none);
  }

  lemma {:induction false} TrimLeftSlashes(s: Bytes)
    ensures Cleaned(TrimLeft(s, (b: Byte) => b == SLASH)) == Cleaned(s)
  {
    if s != [] && s[0] == SLASH {
      TrimLeftSlashes(s[1..]);
      assert s == [SLASH] + s[1..];
      LeadingSlash(s[1..]);
    }
  }

  lemma {:induction false} TrimRightSlashes(s: Bytes)
    ensures Cleaned(TrimRight(s, (b: Byte) => b == SLASH)) == Cleaned(s)
  {
    if s != [] && s[|s| - 1] == SLASH {
      TrimRightSlashes(s[..|s| - 1]);
      assert s == s[..|s| - 1] + [SLASH];
      TrailingSlash(s[..|s| - 1]);
    }
  }

  lemma CleanedIsSlashFree(s: Bytes)
    ensures forall n | n in Cleaned(s) :: Lacks(n, SLASH) && n != [] && n != [DOT]
    ensures Cleaned(s) != [] ==> Join(Cleaned(s), SLASH) != [] && Join(Cleaned(s), SLASH) != [DOT]
  {
    var out := Cleaned(s);
    forall n | n in out ensures Lacks(n, SLASH) && n != [] && n != [DOT] {
      CleanPicks(Split(s, SLASH), n);
    }
    if out != [] {
      assert out[0] in out;
      JoinNotTrivial(out);
    }
  }

  lemma JoinNotTrivial(p: seq<Name>)
    requires SlashFree(p) && p[0] != [] && p[0] != [DOT]
    ensures Join(p, SLASH) != [] && Join(p, SLASH) != [DOT]
  {
    var none: seq<Name>, dot: seq<Name> := [[]], [[DOT]];
    SplitUndoesJoin(p, SLASH);
    SplitUndoesJoin(none, SLASH);
    SplitUndoesJoin(dot, SLASH);
  }

  // ----- The key by its segments -----

  /** Every key is the cleaned segments of the trimmed text with its backslashes turned. */
  lemma KeyBySegments(v: Bytes)
    ensures NormalizeKey(v) == Join(Cleaned(SlashBackslashes(TrimSpace(v))), SLASH)
  {
    var t := TrimSpace(v);
    var s := SlashBackslashes(TrimPrefix(t));
    var drop := (b: Byte) => b == SLASH;
    TrimLeftSlashes(s);
    TrimRightSlashes(TrimLeft(s, drop));
    assert Cleaned(TrimSlashes(s)) == Cleaned(s);
    if t != [] && t[0] == SLASH {
      assert SlashBackslashes(t) == [SLASH] + s;
      LeadingSlash(s);
    }
    CleanedIsSlashFree(s);
    if t == [] || t == [SLASH] {
      var none: seq<Name> := [[]];
      assert s == [] && none[..0] == [];
      assert Split(s, SLASH) == none && Cleaned(s) == [];
      assert t == [] ==> SlashBackslashes(t) == s;
    }
  }

  /** The names of a path, each cut at its backslashes. */
  function Turned(p: seq<Name>): seq<Name> {
    if p == [] then [] else Split(p[0], BACKSLASH) + Turned(p[1..])
  }

  lemma {:induction false} SplitTurnedName(n: Name)
    requires Lacks(n, SLASH)
    ensures Split(SlashBackslashes(n), SLASH) == Split(n, BACKSLASH)
  {
    if n != [] {
      SplitTurnedName(n[1..]);
      assert SlashBackslashes(n)[1..] == SlashBackslashes(n[1..]);
    }
  }

  lemma {:induction false} SplitTurned(p: seq<Name>)
    requires SlashFree(p)
    ensures Split(SlashBackslashes(Join(p, SLASH)), SLASH) == Turned(p)
  {
    assert p[0] in p;
    SplitTurnedName(p[0]);
    if |p| == 1 {
      assert Turned(p[1..]) == [];
    } else {
      var rest := Join(p[1..], SLASH);
      SplitTurned(p[1..]);
      assert SlashBackslashes(Join(p, SLASH)) == SlashBackslashes(p[0]) + [SLASH] + SlashBackslashes(rest);
      SplitAppend(SlashBackslashes(p[0]), SlashBackslashes(rest), SLASH);
    }
  }

  lemma {:induction false} TurnedLacksBackslash(p: seq<Name>)
    ensures forall n | n in Turned(p) :: Lacks(n, BACKSLASH)
  {
    if p != [] {
      TurnedLacksBackslash(p[1..]);
    }
  }

  lemma {:induction false} TurnedKeeps(p: seq<Name>)
    requires forall n | n in p :: Lacks(n, BACKSLASH)
    ensures Turned(p) == p
  {
    if p != [] {
      TurnedKeeps(p[1..]);
      assert p[0] in p;
      var none: Bytes := [];
      SplitHead(p[0], none, BACKSLASH);
      assert p[0] + none == p[0];
    }
  }

  /** A name without the white space at its end. */
  function Bared(n: Name): Name {
    TrimRight(n, (b: Byte) => Space(b))
  }

  function LeftBared(n: Name): Name {
    TrimLeft(n, (b: Byte) => Space(b))
  }

  /** The path with the white space at its end gone. */
  function EndBared(p: seq<Name>): seq<Name>
    requires p != []
  {
    p[..|p| - 1] + [Bared(p[|p| - 1])]
  }

  /** The path with the white space at both its ends gone. */
  function Edged(p: seq<Name>): seq<Name> {
    if p == [] then []
    else if |p| == 1 then [TrimSpace(p[0])]
    else [LeftBared(p[0])] + p[1..|p| - 1] + [Bared(p[|p| - 1])]
  }

  lemma BaredSheds(n: Name)
    ensures Bared(n) <= n && (Bared(n) == n <==> n == [] || !Space(n[|n| - 1]))
    ensures |LeftBared(n)| <= |n| && (LeftBared(n) == n <==> n == [] || !Space(n[0]))
    ensures |TrimSpace(n)| <= |n|
    ensures TrimSpace(n) == n <==> n == [] || (!Space(n[0]) && !Space(n[|n| - 1]))
    ensures forall c | Lacks(n, c) :: Lacks(Bared(n), c) && Lacks(LeftBared(n), c) && Lacks(TrimSpace(n), c)
  {
    var drop := (b: Byte) => Space(b);
    TrimRightSheds(n, drop);
    TrimLeftSheds(n, drop);
    TrimSheds(n, drop);
  }

  lemma TrimVirtualPath(p: seq<Name>)
    requires SlashFree(p)
    ensures TrimSpace([SLASH] + Join(p, SLASH)) == [SLASH] + Join(EndBared(p), SLASH)
  {
    var drop := (b: Byte) => Space(b);
    var init, n := p[..|p| - 1], p[|p| - 1];
    var a := [SLASH] + (if init == [] then [] else Join(init, SLASH) + [SLASH]);
    assert p == init + [n];
    if init != [] {
      JoinAppend(init, [n]);
      JoinAppend(init, [Bared(n)]);
    }
    assert [SLASH] + Join(p, SLASH) == a + n;
    assert [SLASH] + Join(EndBared(p), SLASH) == a + Bared(n);
    TrimRightAppend(a, n, drop);
  }

  lemma TrimAround(first: Name, inner: Bytes, last: Name)
    requires inner != [] && inner[0] == SLASH && inner[|inner| - 1] == SLASH
    ensures TrimSpace(first + inner + last) == LeftBared(first) + inner + Bared(last)
  {
    var drop := (b: Byte) => Space(b);
    assert first + inner + last == first + (inner + last);
    TrimLeftAppend(first, inner + last, drop);
    assert LeftBared(first) + (inner + last) == LeftBared(first) + inner + last;
    TrimRightAppend(LeftBared(first) + inner, last, drop);
  }

  lemma TrimJoined(p: seq<Name>)
    requires SlashFree(p)
    ensures TrimSpace(Join(p, SLASH)) == Join(Edged(p), SLASH)
  {
    if |p| > 1 {
      var first, middle, last := p[0], p[1..|p| - 1], p[|p| - 1];
      assert p == [first] + middle + [last];
      JoinAround(first, middle, last);
      JoinAround(LeftBared(first), middle, Bared(last));
      TrimAround(first, Inner(middle), last);
    }
  }

  /** The text between the first and the last name. */
  function Inner(middle: seq<Name>): Bytes {
    [SLASH] + (if middle == [] then [] else Join(middle, SLASH) + [SLASH])
  }

  lemma JoinAround(first: Name, middle: seq<Name>, last: Name)
    ensures Join([first] + middle + [last], SLASH) ==
            first + Inner(middle) + last
  {
    if middle == [] {
      assert [first] + middle + [last] == [first] + [last];
      JoinAppend([first], [last]);
    } else {
      JoinAppend([first] + middle, [last]);
      JoinAppend([first], middle);
    }
  }

  /** What is left of a virtual path once it is normalised, and once it is normalised again. */
  function OnceSegments(p: seq<Name>): seq<Name>
    requires p != []
  {
    CleanSegments(Turned(EndBared(p)))
  }

  function TwiceSegments(p: seq<Name>): seq<Name>
    requires p != []
  {
    CleanSegments(Edged(OnceSegments(p)))
  }

  lemma EdgedLacks(p: seq<Name>, c: Byte)
    requires forall n | n in p :: Lacks(n, c)
    ensures forall n | n in Edged(p) :: Lacks(n, c)
  {
    if p != [] {
      assert p[0] in p && p[|p| - 1] in p;
      BaredSheds(p[0]);
      BaredSheds(p[|p| - 1]);
      assert forall n | n in p[1..] :: n in p;
    }
  }

  lemma EndBaredLacks(p: seq<Name>, c: Byte)
    requires p != [] && forall n | n in p :: Lacks(n, c)
    ensures forall n | n in EndBared(p) :: Lacks(n, c)
  {
    assert p[|p| - 1] in p;
    BaredSheds(p[|p| - 1]);
  }

  lemma OnceIsClean(p: seq<Name>)
    requires SlashFree(p)
    ensures forall n | n in OnceSegments(p) :: Lacks(n, SLASH) && Lacks(n, BACKSLASH) && n != [] && n != [DOT]
  {
    EndBaredLacks(p, SLASH);
    SplitTurned(EndBared(p));
    TurnedLacksBackslash(EndBared(p));
    CleanKeepsLack(Turned(EndBared(p)), BACKSLASH);
    CleanedIsSlashFree(SlashBackslashes(Join(EndBared(p), SLASH)));
  }

  lemma NormalizedOnce(p: seq<Name>)
    requires SlashFree(p)
    ensures NormalizeKey([SLASH] + Join(p, SLASH)) == Join(OnceSegments(p), SLASH)
  {
    var text := Join(EndBared(p), SLASH);
    KeyBySegments([SLASH] + Join(p, SLASH));
    TrimVirtualPath(p);
    assert SlashBackslashes([SLASH] + text) == [SLASH] + SlashBackslashes(text);
    LeadingSlash(SlashBackslashes(text));
    EndBaredLacks(p, SLASH);
    SplitTurned(EndBared(p));
  }

  /** Normalising a key that is already joined from slash-free names. */
  lemma NormalizedKey(q: seq<Name>)
    requires SlashFree(q)
    ensures NormalizeKey(Join(q, SLASH)) == Join(CleanSegments(Turned(Edged(q))), SLASH)
    ensures forall n | n in CleanSegments(Turned(Edged(q))) :: Lacks(n, SLASH)
  {
    KeyBySegments(Join(q, SLASH));
    TrimJoined(q);
    EdgedLacks(q, SLASH);
    SplitTurned(Edged(q));
    CleanedIsSlashFree(SlashBackslashes(Join(Edged(q), SLASH)));
  }

  lemma NormalizedTwice(p: seq<Name>)
    requires SlashFree(p)
    ensures NormalizeKey(NormalizeKey([SLASH] + Join(p, SLASH))) == Join(TwiceSegments(p), SLASH)
    ensures forall n | n in TwiceSegments(p) :: Lacks(n, SLASH) && Lacks(n, BACKSLASH) && n != []
  {
    var q := OnceSegments(p);
    NormalizedOnce(p);
    OnceIsClean(p);
    if q == [] {
      assert TrimSpace([]) == [];
    } else {
      NormalizedKey(q);
      EdgedLacks(q, BACKSLASH);
      TurnedKeeps(Edged(q));
      CleanKeepsLack(Edged(q), BACKSLASH);
      forall n | n in TwiceSegments(p) ensures n != [] {
        CleanPicks(Edged(q), n);
      }
    }
  }

  // ----- When a path is its own key -----

  lemma LacksAcross(a: Bytes, b: Bytes, c: Byte)
    requires c != SLASH
    ensures Lacks(a + [SLASH] + b, c) <==> Lacks(a, c) && Lacks(b, c)
  {
    var k := a + [SLASH] + b;
    assert forall i | 0 <= i < |a| :: k[i] == a[i];
    assert forall i | 0 <= i < |b| :: k[|a| + 1 + i] == b[i];
    assert forall i | 0 <= i < |k| :: k[i] == if i < |a| then a[i] else if i == |a| then SLASH else b[i - |a| - 1];
  }

  lemma {:induction false} JoinLacks(p: seq<Name>, c: Byte)
    requires c != SLASH
    ensures Lacks(Join(p, SLASH), c) <==> forall n | n in p :: Lacks(n, c)
  {
    if p != [] {
      JoinLacks(p[1..], c);
      assert p == [p[0]] + p[1..];
      assert forall n :: n in p <==> n == p[0] || n in p[1..];
      if |p| > 1 {
        LacksAcross(p[0], Join(p[1..], SLASH), c);
      }
    }
  }

  lemma {:induction false} JoinEdges(p: seq<Name>)
    requires p != [] && forall n | n in p :: n != []
    ensures var k := Join(p, SLASH);
            && k != [] && p[0] != [] && p[|p| - 1] != []
            && k[0] == p[0][0] && k[|k| - 1] == p[|p| - 1][|p[|p| - 1]| - 1]
  {
    assert p[0] in p && p[|p| - 1] in p;
    if |p| > 1 {
      assert forall n | n in p[1..] :: n in p;
      JoinEdges(p[1..]);
    }
  }

  lemma SameJoin(p: seq<Name>, q: seq<Name>)
    requires SegmentPath(p) && forall n | n in q :: Lacks(n, SLASH)
    ensures Join(p, SLASH) == Join(q, SLASH) <==> p == q
  {
    if q == [] {
      JoinEdges(p);
    } else if Join(p, SLASH) == Join(q, SLASH) {
      JoinInjective(p, q);
    }
  }

  lemma OncePlain(p: seq<Name>)
    requires SegmentPath(p) && forall n | n in p :: Lacks(n, BACKSLASH)
    ensures OnceSegments(p) == CleanSegments(EndBared(p))
  {
    EndBaredLacks(p, BACKSLASH);
    TurnedKeeps(EndBared(p));
  }

  lemma OnceKeepsIff(p: seq<Name>)
    requires SegmentPath(p)
    ensures OnceSegments(p) == p <==> (forall n | n in p :: Lacks(n, BACKSLASH)) && Bared(p[|p| - 1]) == p[|p| - 1]
  {
    OnceIsClean(p);
    if forall n | n in p :: Lacks(n, BACKSLASH) {
      OncePlain(p);
      CleanFull(EndBared(p));
      if Bared(p[|p| - 1]) == p[|p| - 1] {
        assert EndBared(p) == p;
        CleanKeepsSegments(p);
      } else {
        assert EndBared(p)[|p| - 1] != p[|p| - 1];
      }
    }
  }

  /** A virtual path is its own cache key if and only if it has no backslash and does not end
      in white space. */
  lemma VirtualPathIsItsKeyIff(p: seq<Name>)
    requires SegmentPath(p)
    ensures var k := Join(p, SLASH);
            k != [] && (NormalizeKey([SLASH] + k) == k <==> Lacks(k, BACKSLASH) && !Space(k[|k| - 1]))
  {
    NormalizedOnce(p);
    OnceIsClean(p);
    SameJoin(p, OnceSegments(p));
    OnceKeepsIff(p);
    JoinLacks(p, BACKSLASH);
    JoinEdges(p);
    BaredSheds(p[|p| - 1]);
  }

  lemma EdgedKeepsIff(p: seq<Name>)
    requires SegmentPath(p)
    ensures var k := Join(p, SLASH);
            k != [] && |Edged(p)| == |p| && (Edged(p) == p <==> !Space(k[0]) && !Space(k[|k| - 1]))
  {
    JoinEdges(p);
    BaredSheds(p[0]);
    BaredSheds(p[|p| - 1]);
    if |p| > 1 {
      EdgedPieces(p);
    }
  }

  lemma EdgedPieces(p: seq<Name>)
    requires |p| > 1
    ensures |Edged(p)| == |p|
    ensures Edged(p) == p <==> LeftBared(p[0]) == p[0] && Bared(p[|p| - 1]) == p[|p| - 1]
  {
    assert p == [p[0]] + p[1..|p| - 1] + [p[|p| - 1]];
    assert Edged(p)[0] == LeftBared(p[0]) && Edged(p)[|p| - 1] == Bared(p[|p| - 1]);
  }

  /** The same without the leading slash: then white space at the front counts too. */
  lemma KeyIsItsKeyIff(p: seq<Name>)
    requires SegmentPath(p)
    ensures NormalizeKey(Join(p, SLASH)) == Join(p, SLASH) <==> PlainPath(p)
  {
    var q := CleanSegments(Turned(Edged(p)));
    NormalizedKey(p);
    SameJoin(p, q);
    JoinLacks(p, BACKSLASH);
    EdgedKeepsIff(p);
    TurnedLacksBackslash(Edged(p));
    CleanKeepsLack(Turned(Edged(p)), BACKSLASH);
    if forall n | n in p :: Lacks(n, BACKSLASH) {
      EdgedLacks(p, BACKSLASH);
      TurnedKeeps(Edged(p));
      CleanFull(Edged(p));
      CleanKeepsSegments(p);
    }
  }

  /** Callers that pass an already normalised key have it normalised once more; the path
      survives that if and only if it is plain. */
  lemma NormalizedTwiceIff(p: seq<Name>)
    requires SegmentPath(p)
    ensures NormalizeKey(NormalizeKey([SLASH] + Join(p, SLASH))) == Join(p, SLASH) <==> PlainPath(p)
  {
    NormalizedTwice(p);
    SameJoin(p, TwiceSegments(p));
    if PlainPath(p) {
      PlainPathIsItsKey(p);
    } else if TwiceSegments(p) == p {
      TwiceKeepsPlain(p);
    }
  }

  lemma PlainPathIsItsKey(p: seq<Name>)
    requires PlainPath(p)
    ensures var k := Join(p, SLASH);
            NormalizeKey([SLASH] + k) == k != [] && NormalizeKey(k) == k
  {
    VirtualPathIsItsKeyIff(p);
    KeyIsItsKeyIff(p);
  }

  /** Two passes shed something from every path that is not plain, and nothing grows back. */
  lemma TwiceKeepsPlain(p: seq<Name>)
    requires SegmentPath(p) && TwiceSegments(p) == p
    ensures PlainPath(p)
  {
    var q := OnceSegments(p);
    var n := p[|p| - 1];
    NormalizedTwice(p);
    OncePlain(p);
    CleanFull(EndBared(p));
    CleanFull(Edged(q));
    assert |Edged(q)| == |q|;
    assert q == EndBared(p) && Edged(q) == p;
    LastShrinks(q);
    BaredSheds(n);
    assert q == p;
    EdgedKeepsIff(p);
    JoinLacks(p, BACKSLASH);
  }

  lemma LastShrinks(q: seq<Name>)
    requires q != []
    ensures |Edged(q)| == |q| && |Edged(q)[|q| - 1]| <= |q[|q| - 1]|
  {
    BaredSheds(q[|q| - 1]);
  }

  // ----- What invalidation covers -----

  /** Dropping everything at or under a key drops the subtree of this path; the empty key
      drops everything. */
  predicate Covers(key: Bytes, p: seq<Name>) {
    key == [] || AncestorOrEqual(key, Join(p, SLASH))
  }

  lemma CoversBySegments(out: seq<Name>, p: seq<Name>)
    requires SegmentPath(p) && forall n | n in out :: Lacks(n, SLASH) && n != []
    ensures Covers(Join(out, SLASH), p) <==> out <= p
  {
    if out != [] {
      JoinEdges(out);
      PrefixTestIsSubtree(out, p);
    }
  }

  /** One normalisation, as a move uses it: a path is covered if and only if what is left of
      it are its own first names. */
  lemma CoversOnceIff(p: seq<Name>)
    requires SegmentPath(p)
    ensures Covers(NormalizeKey([SLASH] + Join(p, SLASH)), p) <==> OnceSegments(p) <= p
  {
    NormalizedOnce(p);
    OnceIsClean(p);
    CoversBySegments(OnceSegments(p), p);
  }

  /** Two normalisations, as renames, deletes and invalidation by id use them. */
  lemma CoversTwiceIff(p: seq<Name>)
    requires SegmentPath(p)
    ensures Covers(NormalizeKey(NormalizeKey([SLASH] + Join(p, SLASH))), p) <==> TwiceSegments(p) <= p
  {
    NormalizedTwice(p);
    CoversBySegments(TwiceSegments(p), p);
  }

  /** A name with a backslash is never part of a key, so a path that holds one is covered only
      through a proper ancestor above that name. */
  lemma BackslashCoveredFromAbove(p: seq<Name>, j: nat)
    requires SegmentPath(p) && j < |p| && !Lacks(p[j], BACKSLASH)
    ensures OnceSegments(p) <= p <==> OnceSegments(p) <= p[..j]
    ensures TwiceSegments(p) <= p <==> TwiceSegments(p) <= p[..j]
  {
    OnceIsClean(p);
    NormalizedTwice(p);
    PrefixAbove(OnceSegments(p), p, j);
    PrefixAbove(TwiceSegments(p), p, j);
  }

  lemma PrefixAbove(out: seq<Name>, p: seq<Name>, j: nat)
    requires j < |p| && !Lacks(p[j], BACKSLASH) && forall n | n in out :: Lacks(n, BACKSLASH)
    ensures out <= p <==> out <= p[..j]
  {
    assert |out| > j ==> out[j] in out;
  }

  // ----- The condition on names, without backslashes -----

  /** The last name has no white space at its end, or nothing but white space or a dot segment
      in front of it. */
  predicate Settles(p: seq<Name>)
    requires p != []
  {
    var n := p[|p| - 1];
    var base := Bared(n);
    base == n || base == [] || base == [DOT] || (base == DOTS && |p| > 1)
  }

  /** What cleaning leaves of a path whose last name has become `base`. */
  function Remaining(init: seq<Name>, base: Name): seq<Name> {
    if base == [] || base == [DOT] then init
    else if base == DOTS && init != [] then init[..|init| - 1]
    else init + [base]
  }

  lemma CleanEnd(init: seq<Name>, base: Name)
    requires forall n | n in init :: SegmentName(n)
    ensures CleanSegments(init + [base]) == Remaining(init, base)
  {
    CleanSnoc(init, base);
    CleanKeepsSegments(init);
    assert init != [] ==> init[|init| - 1] in init;
  }

  lemma EndBaredCleaned(p: seq<Name>)
    requires SegmentPath(p)
    ensures var out := CleanSegments(EndBared(p));
            && out == Remaining(p[..|p| - 1], Bared(p[|p| - 1]))
            && (out <= p <==> Settles(p))
            && (Settles(p) && out != [] ==> SegmentPath(out) && out[0] == p[0])
  {
    var init, n := p[..|p| - 1], p[|p| - 1];
    assert n in p && p[0] in p && p == init + [n];
    CleanEnd(init, Bared(n));
    BaredSheds(n);
    if !Settles(p) {
      assert (init + [Bared(n)])[|init|] != p[|init|];
    }
  }

  /** Without backslashes, one normalisation covers a path if and only if its last name settles. */
  lemma SettlesOnceIff(p: seq<Name>)
    requires SegmentPath(p) && Lacks(Join(p, SLASH), BACKSLASH)
    ensures Covers(NormalizeKey([SLASH] + Join(p, SLASH)), p) <==> Settles(p)
  {
    JoinLacks(p, BACKSLASH);
    OncePlain(p);
    CoversOnceIff(p);
    EndBaredCleaned(p);
  }

  /** A key whose mount does not begin with white space is trimmed at its end only. */
  lemma EdgedIsEndBared(q: seq<Name>)
    requires q != [] && q[0] != [] && !Space(q[0][0])
    ensures Edged(q) == EndBared(q)
  {
    BaredSheds(q[0]);
    if |q| > 1 {
      assert q[..|q| - 1] == [q[0]] + q[1..|q| - 1];
    }
  }

  /** And two cover it if and only if its last name settles, and so does the last name of what
      is left then, provided the mount does not begin with white space. */
  lemma SettlesTwiceIff(p: seq<Name>)
    requires SegmentPath(p) && Lacks(Join(p, SLASH), BACKSLASH) && p[0] != [] && !Space(p[0][0])
    ensures var once := OnceSegments(p);
            Covers(NormalizeKey(NormalizeKey([SLASH] + Join(p, SLASH))), p) <==>
            Settles(p) && (once == [] || Settles(once))
  {
    var q := OnceSegments(p);
    JoinLacks(p, BACKSLASH);
    OncePlain(p);
    CoversTwiceIff(p);
    EndBaredCleaned(p);
    if !Settles(p) {
      UnsettledStays(p);
    } else if q != [] {
      EdgedIsEndBared(q);
      EndBaredCleaned(q);
      CleanFull(EndBared(q));
      assert TwiceSegments(p) <= p <==> TwiceSegments(p) <= q;
    }
  }

  lemma UnsettledStays(p: seq<Name>)
    requires SegmentPath(p) && !Settles(p) && p[0] != [] && !Space(p[0][0])
    ensures var q := CleanSegments(EndBared(p));
            CleanSegments(Edged(q)) == q && !(q <= p)
  {
    var q := EndBared(p);
    EndBaredCleaned(p);
    UnsettledEnd(p);
    EdgedIsEndBared(q);
  }

  lemma UnsettledEnd(p: seq<Name>)
    requires SegmentPath(p) && !Settles(p) && p[0] != [] && !Space(p[0][0])
    ensures var q := EndBared(p);
            q[0] != [] && !Space(q[0][0]) && EndBared(q) == q && CleanSegments(q) == q
  {
    var init, base := p[..|p| - 1], Bared(p[|p| - 1]);
    BaredSheds(p[|p| - 1]);
    BaredSheds(base);
    TrimRightSheds(p[|p| - 1], (b: Byte) => Space(b));
    CleanEnd(init, base);
  }

  // ----- Witnesses -----

  lemma BareName(s: Bytes)
    requires s != [] && !Space(s[|s| - 1])
    ensures Bared(s + [32]) == s
  {
    var drop := (b: Byte) => Space(b);
    var t := s + [32];
    assert t[..|t| - 1] == s && drop(t[|t| - 1]) && !drop(s[|s| - 1]);
    assert TrimRight(t, drop) == TrimRight(s, drop) == s;
  }

  /** A directory "m/a " is invalidated under "m/a", and so every file in it is missed. */
  lemma TrailingSpaceEscapesInvalidation(m: Name, a: Name, f: Name)
    requires SegmentName(m) && SegmentName(a) && SegmentName(f) && !Space(a[|a| - 1])
    requires Lacks(m, BACKSLASH) && Lacks(a, BACKSLASH)
    ensures var dir := [m, a + [32]];
            SegmentPath(dir) && !Covers(NormalizeKey([SLASH] + Join(dir, SLASH)), dir + [f])
  {
    var n := a + [32];
    var dir, seen := [m, n], [m, a];
    assert Lacks(n, BACKSLASH) && n[|n| - 1] == 32;
    BareName(a);
    assert EndBared(dir) == seen;
    OncePlain(dir);
    CleanKeepsSegments(seen);
    NormalizedOnce(dir);
    CoversBySegments(seen, dir + [f]);
    assert seen[1] != (dir + [f])[1];
  }

  /** A directory "m/b /. " is covered when its path is normalised once, under "m/b ", but not
      when it is normalised twice, under "m/b". */
  lemma SecondPassMisses(m: Name, b: Name)
    requires SegmentName(m) && SegmentName(b) && !Space(m[0]) && !Space(b[|b| - 1])
    requires Lacks(m, BACKSLASH) && Lacks(b, BACKSLASH)
    ensures var dir := [m, b + [32], [DOT, 32]];
            && SegmentPath(dir)
            && Covers(NormalizeKey([SLASH] + Join(dir, SLASH)), dir)
            && !Covers(NormalizeKey(NormalizeKey([SLASH] + Join(dir, SLASH))), dir)
  {
    var n: Name, d: Name, dot: Name := b + [32], [DOT, 32], [DOT];
    var dir := [m, n, d];
    assert Lacks(n, BACKSLASH) && n[|n| - 1] == 32;
    JoinLacks(dir, BACKSLASH);
    BareName(b);
    BareName(dot);
    assert dot + [32] == d;
    OncePlain(dir);
    EndBaredCleaned(dir);
    assert dir[..2] == [m, n];
    SettlesOnceIff(dir);
    SettlesTwiceIff(dir);
  }

  /** A directory "m/a\\b" is invalidated under "m/a/b", and so every file in it is missed, whatever
      the names m, a and b are. */
  lemma BackslashEscapesInvalidation(m: Name, a: Name, b: Name, f: Name)
    requires SegmentName(m) && SegmentName(a) && SegmentName(b) && SegmentName(f)
    requires Lacks(m, BACKSLASH) && Lacks(a, BACKSLASH) && Lacks(b, BACKSLASH) && !Space(b[|b| - 1])
    ensures var dir := [m, a + [BACKSLASH] + b];
            SegmentPath(dir) && !Covers(NormalizeKey([SLASH] + Join(dir, SLASH)), dir + [f])
  {
    var n := a + [BACKSLASH] + b;
    var dir, seen := [m, n], [m, a, b];
    assert SegmentName(n) by { assert n[|a|] == BACKSLASH; }
    BaredSheds(n);
    assert EndBared(dir) == dir;
    TurnedPair(m, a, b);
    CleanKeepsSegments(seen);
    NormalizedOnce(dir);
    CoversBySegments(seen, dir + [f]);
    assert seen[1] != (dir + [f])[1] by { assert !Lacks(n, BACKSLASH) by { assert n[|a|] == BACKSLASH; } }
  }

  lemma TurnedPair(m: Name, a: Name, b: Name)
    requires Lacks(m, BACKSLASH) && Lacks(a, BACKSLASH) && Lacks(b, BACKSLASH)
    ensures Turned([m, a + [BACKSLASH] + b]) == [m, a, b]
  {
    var n := a + [BACKSLASH] + b;
    TurnedKeeps([m]);
    TurnedKeeps([a]);
    TurnedKeeps([b]);
    SplitAppend(a, b, BACKSLASH);
    var pair, none: seq<Name> := [m, n], [];
    assert pair[1..] == [n] && pair[1..][1..] == none;
  }
}

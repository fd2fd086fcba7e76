/** Go strings are byte sequences compared byte by byte.  This module fixes that reading
    once: paths, object keys, cursors and query strings are all `Bytes`. */
module ByteStrings {

  type Byte = b: int | 0 <= b < 256

  type Bytes = seq<Byte>

  const SLASH: Byte := 47

  /** Length of the longest common prefix of `a` and `b`. */
  function CommonLength(a: Bytes, b: Bytes): (n: nat)
    ensures n <= |a| && n <= |b|
    ensures a[..n] == b[..n]
    ensures n < |a| && n < |b| ==> a[n] != b[n]
  {
    if a == [] || b == [] || a[0] != b[0] then 0 else
      var n := CommonLength(a[1..], b[1..]);
      assert a[..n + 1] == [a[0]] + a[1..][..n];
      assert b[..n + 1] == [b[0]] + b[1..][..n];
      n + 1
  }

  /** Go's `a < b` on strings. */
  predicate Less(a: Bytes, b: Bytes) {
    var n := CommonLength(a, b);
    n < |b| && (n == |a| || a[n] < b[n])
  }

  predicate AtMost(a: Bytes, b: Bytes) {
    a == b || Less(a, b)
  }

  /** `CommonLength` is the only length at which two strings can agree and then part. */
  lemma CommonLengthUnique(a: Bytes, b: Bytes, n: nat)
    requires n <= |a| && n <= |b| && a[..n] == b[..n]
    requires n < |a| && n < |b| ==> a[n] != b[n]
    ensures n == CommonLength(a, b)
  {
    var m := CommonLength(a, b);
    assert forall i | 0 <= i < n :: a[i] == a[..n][i] == b[..n][i] == b[i];
    assert forall i | 0 <= i < m :: a[i] == a[..m][i] == b[..m][i] == b[i];
  }

  lemma LessIrreflexive(a: Bytes)
    ensures !Less(a, a)
  {
    CommonLengthUnique(a, a, |a|);
  }

  lemma LessTotal(a: Bytes, b: Bytes)
    ensures Less(a, b) || a == b || Less(b, a)
  {
    CommonLengthUnique(b, a, CommonLength(a, b));
  }

  lemma LessTransitive(a: Bytes, b: Bytes, c: Bytes)
    requires Less(a, b) && Less(b, c)
    ensures Less(a, c)
  {
    var m, n := CommonLength(a, b), CommonLength(b, c);
    var k := if m <= n then m else n;
    assert a[..k] == a[..m][..k] == b[..m][..k] == b[..k] == b[..n][..k] == c[..n][..k] == c[..k];
    if m < n { assert b[m] == b[..n][m] == c[..n][m] == c[m]; }
    if n < m { assert a[n] == a[..m][n] == b[..m][n] == b[n]; }
    CommonLengthUnique(a, c, k);
  }

  lemma LessAsymmetric(a: Bytes, b: Bytes)
    requires Less(a, b)
    ensures !Less(b, a) && a != b
  {
    LessIrreflexive(a);
    if Less(b, a) { LessTransitive(a, b, a); }
  }

  /** A first differing byte decides the order. */
  lemma LessAt(a: Bytes, b: Bytes, n: nat)
    requires n <= |a| && n < |b| && a[..n] == b[..n]
    requires n == |a| || a[n] < b[n]
    ensures Less(a, b)
  {
    CommonLengthUnique(a, b, n);
  }

  /** Strings with a common prefix form an interval: whatever lies between a prefix and one
      of its extensions has that prefix too. */
  lemma PrefixInterval(p: Bytes, x: Bytes, y: Bytes)
    requires p <= y && AtMost(p, x) && AtMost(x, y)
    ensures p <= x
  {
    var n := CommonLength(p, x);
    if n < |p| {
      assert n < |x| && p[n] < x[n];
      assert y[..n] == p[..n] == x[..n];
      LessAt(y, x, n);
      LessAsymmetric(y, x);
      assert false;
    }
    assert x[..n] == p;
  }

  // ----- Splitting and joining -----

  predicate Lacks(s: Bytes, c: Byte) {
    forall i | 0 <= i < |s| :: s[i] != c
  }

  /** Go's strings.Split on one separator byte. */
  function Split(s: Bytes, sep: Byte): (parts: seq<Bytes>)
    ensures parts != []
    ensures forall p | p in parts :: Lacks(p, sep)
  {
    if s == [] then [[]]
    else
      var rest := Split(s[1..], sep);
      if s[0] == sep then [[]] + rest
      else
        assert rest[0] in rest && forall p | p in rest[1..] :: p in rest;
        Prepend(s[0], rest)
  }

  /** The parts with one more byte at the front of the first. */
  function Prepend(c: Byte, parts: seq<Bytes>): seq<Bytes>
    requires parts != []
  {
    [[c] + parts[0]] + parts[1..]
  }

  lemma PrependAppend(c: Byte, x: seq<Bytes>, y: seq<Bytes>)
    requires x != []
    ensures Prepend(c, x + y) == Prepend(c, x) + y
  {
    assert (x + y)[1..] == x[1..] + y;
  }

  lemma PrependToFirst(c: Byte, p: Bytes, more: seq<Bytes>)
    ensures Prepend(c, [p] + more) == [[c] + p] + more
  {
    assert ([p] + more)[1..] == more;
  }

  function Join(parts: seq<Bytes>, sep: Byte): Bytes {
    if parts == [] then []
    else if |parts| == 1 then parts[0]
    else parts[0] + [sep] + Join(parts[1..], sep)
  }

  lemma {:induction false} SplitUndoesJoin(parts: seq<Bytes>, sep: Byte)
    requires parts != [] && forall p | p in parts :: Lacks(p, sep)
    ensures Split(Join(parts, sep), sep) == parts
  {
    if |parts| == 1 {
      SplitHead(parts[0], [], sep);
      assert parts[0] + [] == parts[0];
    } else {
      SplitUndoesJoin(parts[1..], sep);
      var tail := [sep] + Join(parts[1..], sep);
      SplitHead(parts[0], tail, sep);
      assert tail[1..] == Join(parts[1..], sep);
      assert parts[0] + [sep] + Join(parts[1..], sep) == parts[0] + tail;
    }
  }

  lemma {:induction false} JoinUndoesSplit(s: Bytes, sep: Byte)
    ensures Join(Split(s, sep), sep) == s
  {
    if s != [] {
      var rest := Split(s[1..], sep);
      JoinUndoesSplit(s[1..], sep);
      assert s == [s[0]] + s[1..];
      if s[0] == sep {
        assert ([[]] + rest)[1..] == rest;
      } else {
        var parts := Prepend(s[0], rest);
        assert parts[0] == [s[0]] + rest[0] && parts[1..] == rest[1..];
      }
    }
  }

  /** Bytes before the first separator go to the first part. */
  lemma {:induction false} SplitHead(p: Bytes, tail: Bytes, sep: Byte)
    requires Lacks(p, sep)
    requires tail == [] || tail[0] == sep
    ensures Split(p + tail, sep) == [p] + (if tail == [] then [] else Split(tail[1..], sep))
  {
    if p == [] {
      assert p + tail == tail;
    } else {
      var s, more := p + tail, if tail == [] then [] else Split(tail[1..], sep);
      SplitHead(p[1..], tail, sep);
      assert s[1..] == p[1..] + tail && s[0] == p[0];
      assert Split(s, sep) == Prepend(p[0], Split(s[1..], sep));
      PrependToFirst(p[0], p[1..], more);
      assert [p[0]] + p[1..] == p;
    }
  }

  lemma {:induction false} JoinSnoc(parts: seq<Bytes>, p: Bytes, sep: Byte)
    ensures Join(parts + [p], sep) == if parts == [] then p else Join(parts, sep) + [sep] + p
  {
    if parts == [] {
      assert parts + [p] == [p];
    } else {
      JoinSnoc(parts[1..], p, sep);
      assert (parts + [p])[1..] == parts[1..] + [p];
    }
  }

  function IndexByteFrom(s: Bytes, c: Byte, from: nat): (i: int)
    requires from <= |s|
    ensures i == -1 || (from <= i < |s| && s[i] == c)
    ensures forall k | from <= k < (if i < 0 then |s| else i) :: s[k] != c
    decreases |s| - from
  {
    if from == |s| then -1
    else if s[from] == c then from
    else IndexByteFrom(s, c, from + 1)
  }

  /** Go's strings.IndexByte. */
  function IndexByte(s: Bytes, c: Byte): (i: int)
    ensures -1 <= i < |s|
    ensures i >= 0 ==> s[i] == c && Lacks(s[..i], c)
    ensures i < 0 ==> Lacks(s, c)
  {
    IndexByteFrom(s, c, 0)
  }

  /** Splitting at a separator splits both sides. */
  lemma {:induction false} SplitAppend(a: Bytes, b: Bytes, sep: Byte)
    ensures Split(a + [sep] + b, sep) == Split(a, sep) + Split(b, sep)
  {
    var s := a + [sep] + b;
    if a == [] {
      assert s[1..] == b;
    } else {
      SplitAppend(a[1..], b, sep);
      assert s[1..] == a[1..] + [sep] + b && s[0] == a[0];
      PrependAppend(a[0], Split(a[1..], sep), Split(b, sep));
    }
  }

  // ----- Trimming -----

  /** ASCII white space. */
  predicate Space(b: Byte) {
    9 <= b <= 13 || b == 32
  }

  function TrimLeft(s: Bytes, drop: Byte -> bool): Bytes {
    if s != [] && drop(s[0]) then TrimLeft(s[1..], drop) else s
  }

  function TrimRight(s: Bytes, drop: Byte -> bool): Bytes {
    if s != [] && drop(s[|s| - 1]) then TrimRight(s[..|s| - 1], drop) else s
  }

  /** Go's strings.Trim with the set of bytes to drop. */
  function Trim(s: Bytes, drop: Byte -> bool): Bytes {
    TrimRight(TrimLeft(s, drop), drop)
  }

  function TrimSpace(s: Bytes): Bytes {
    Trim(s, (b: Byte) => Space(b))
  }

  lemma {:induction false} TrimLeftSheds(s: Bytes, drop: Byte -> bool)
    ensures |TrimLeft(s, drop)| <= |s| && (s != [] && drop(s[0]) ==> |TrimLeft(s, drop)| < |s|)
    ensures forall c | Lacks(s, c) :: Lacks(TrimLeft(s, drop), c)
    ensures TrimLeft(s, drop) != [] ==> !drop(TrimLeft(s, drop)[0])
  {
    if s != [] && drop(s[0]) {
      TrimLeftSheds(s[1..], drop);
      assert forall c | Lacks(s, c) :: Lacks(s[1..], c);
    }
  }

  lemma {:induction false} TrimRightSheds(s: Bytes, drop: Byte -> bool)
    ensures TrimRight(s, drop) <= s && (s != [] && drop(s[|s| - 1]) ==> |TrimRight(s, drop)| < |s|)
    ensures TrimRight(s, drop) != [] ==> !drop(TrimRight(s, drop)[|TrimRight(s, drop)| - 1])
    ensures s != [] && !drop(s[0]) ==> TrimRight(s, drop) != []
  {
    if s != [] && drop(s[|s| - 1]) {
      TrimRightSheds(s[..|s| - 1], drop);
    }
  }

  lemma TrimSheds(s: Bytes, drop: Byte -> bool)
    ensures |Trim(s, drop)| <= |s|
    ensures s != [] && (drop(s[0]) || drop(s[|s| - 1])) ==> |Trim(s, drop)| < |s|
    ensures forall c | Lacks(s, c) :: Lacks(Trim(s, drop), c)
  {
    TrimLeftSheds(s, drop);
    TrimRightSheds(TrimLeft(s, drop), drop);
    if s != [] && !drop(s[0]) {
      TrimRightSheds(s, drop);
    }
  }

  /** Trimming takes off bytes to drop at both ends, and all of them. */
  lemma TrimStrips(s: Bytes, drop: Byte -> bool) returns (before: Bytes, behind: Bytes)
    ensures var t := Trim(s, drop);
            && s == before + t + behind
            && (forall i | 0 <= i < |before| :: drop(before[i]))
            && (forall i | 0 <= i < |behind| :: drop(behind[i]))
            && (t != [] ==> !drop(t[0]) && !drop(t[|t| - 1]))
  {
    var rest := TrimLeft(s, drop);
    before := TrimLeftStrips(s, drop);
    behind := TrimRightStrips(rest, drop);
    TrimLeftSheds(s, drop);
    TrimRightSheds(rest, drop);
    var t := Trim(s, drop);
    assert s == before + (t + behind) == before + t + behind;
    assert t != [] ==> t[0] == rest[0];
  }

  lemma {:induction false} TrimLeftStrips(s: Bytes, drop: Byte -> bool) returns (before: Bytes)
    ensures s == before + TrimLeft(s, drop) && forall i | 0 <= i < |before| :: drop(before[i])
  {
    before := [];
    if s != [] && drop(s[0]) {
      var more := TrimLeftStrips(s[1..], drop);
      before := [s[0]] + more;
      assert s == [s[0]] + s[1..];
    }
  }

  lemma {:induction false} TrimRightStrips(s: Bytes, drop: Byte -> bool) returns (behind: Bytes)
    ensures s == TrimRight(s, drop) + behind && forall i | 0 <= i < |behind| :: drop(behind[i])
  {
    behind := [];
    if s != [] && drop(s[|s| - 1]) {
      var n := |s| - 1;
      var more := TrimRightStrips(s[..n], drop);
      behind := more + [s[n]];
      assert s == s[..n] + [s[n]];
    }
  }

  /** A byte that stays protects everything before it, or behind it. */
  lemma {:induction false} TrimRightAppend(a: Bytes, n: Bytes, drop: Byte -> bool)
    requires a != [] && !drop(a[|a| - 1])
    ensures TrimRight(a + n, drop) == a + TrimRight(n, drop)
  {
    if n == [] {
      assert a + n == a;
    } else if drop(n[|n| - 1]) {
      TrimRightAppend(a, n[..|n| - 1], drop);
      assert (a + n)[..|a + n| - 1] == a + n[..|n| - 1];
    }
  }

  lemma {:induction false} TrimLeftAppend(n: Bytes, a: Bytes, drop: Byte -> bool)
    requires a != [] && !drop(a[0])
    ensures TrimLeft(n + a, drop) == TrimLeft(n, drop) + a
  {
    if n == [] {
      assert n + a == a;
    } else if drop(n[0]) {
      TrimLeftAppend(n[1..], a, drop);
      assert (n + a)[1..] == n[1..] + a;
    }
  }
}

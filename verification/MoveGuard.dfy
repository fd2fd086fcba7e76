/** The check a transfer makes before it moves a directory: the relative path from the source to
    the new parent must be "." or start with "..". What it lets through wrongly is left to the
    filesystem to refuse. */
module MoveGuard {
  import opened ByteStrings
  import opened CacheKeys
  import opened TreeIndex
  import opened TreeEdits

  function CommonDepth(a: seq<Name>, b: seq<Name>): (n: nat)
    ensures n <= |a| && n <= |b| && a[..n] == b[..n]
    ensures n < |a| && n < |b| ==> a[n] != b[n]
  {
    if a == [] || b == [] || a[0] != b[0] then 0
    else
      var n := CommonDepth(a[1..], b[1..]);
      assert a[..n + 1] == [a[0]] + a[1..][..n] && b[..n + 1] == [b[0]] + b[1..][..n];
      n + 1
  }

  /** filepath.Rel on clean absolute paths: one ".." per segment to leave, then the rest. */
  function Rel(base: seq<Name>, target: seq<Name>): Bytes {
    var n := CommonDepth(base, target);
    var segments := seq(|base| - n, _ => DOTS) + target[n..];
    if segments == [] then [DOT] else Join(segments, SLASH)
  }

  predicate Rejects(source: seq<Name>, targetParent: seq<Name>) {
    var rel := Rel(source, targetParent);
    rel != [DOT] && !(DOTS <= rel)
  }

  /** Only directories are checked. */
  ghost predicate Admits(x: Index, id: Id, newParent: Id)
    requires Tree(x) && id in x.entities && newParent in x.entities
  {
    x.entities[id].isDir ==> !Rejects(PathOf(x, id), PathOf(x, newParent))
  }

  /** The new parent lies below the node, under a name that begins with two dots. */
  ghost predicate BelowDots(x: Index, id: Id, newParent: Id)
    requires Tree(x) && id in x.entities && newParent in x.entities
  {
    var p, q := PathOf(x, id), PathOf(x, newParent);
    p < q && DOTS <= q[|p|]
  }

  lemma JoinStartsWithDots(segments: seq<Name>)
    requires segments != [] && segments[0] != [] && segments[0] != [DOT]
    ensures DOTS <= Join(segments, SLASH) <==> DOTS <= segments[0]
  {
    var first, text := segments[0], Join(segments, SLASH);
    assert first <= text;
    if |first| == 1 {
      assert text[0] == first[0];
    } else {
      assert text[..2] == first[..2];
    }
  }

  /** The check rejects exactly the strict descendants, except those reached through a first
      name that itself begins with two dots. */
  lemma RejectsIff(source: seq<Name>, target: seq<Name>)
    requires SegmentPath(source) && SegmentPath(target)
    ensures Rejects(source, target) <==> source < target && !(DOTS <= target[|source|])
  {
    var n := CommonDepth(source, target);
    var segments := seq(|source| - n, _ => DOTS) + target[n..];
    if n < |source| {
      assert segments[0] == DOTS;
      JoinStartsWithDots(segments);
      assert !(source < target);
    } else {
      assert source == target[..n] && segments == target[n..];
      if segments != [] {
        assert segments[0] in target;
        JoinStartsWithDots(segments);
        RestIsNotDot(segments);
      }
    }
  }

  lemma RestIsNotDot(segments: seq<Name>)
    requires SegmentPath(segments)
    ensures Join(segments, SLASH) != [DOT]
  {
    assert segments[0] in segments;
    JoinNotTrivial(segments);
  }

  /** A file has nothing below it, so no directory can be below the file being moved. */
  lemma {:induction false} NothingBelowFiles(x: Index, id: Id, other: Id)
    requires Tree(x) && id in x.entities && !x.entities[id].isDir && other in SubtreeIds(x, id)
    ensures other == id
    decreases |PathOf(x, other)|
  {
    if other != id {
      SubtreeStep(x, id, other);
      PathOfStep(x, other);
      var e := x.entities[other];
      assert EntityOk(x, other) && EdgeOk(x, (e.parent, e.name));
      NothingBelowFiles(x, id, e.parent);
    }
  }

  /** Which moves the check lets through. */
  lemma AdmitsIff(x: Index, id: Id, newParent: Id)
    requires Tree(x) && id in x.entities && x.entities[id].isDir && newParent in x.entities
    ensures Admits(x, id, newParent) <==>
            newParent !in SubtreeIds(x, id) || newParent == id || BelowDots(x, id, newParent)
  {
    var p, q := PathOf(x, id), PathOf(x, newParent);
    PathIsSegments(x, id, p);
    PathIsSegments(x, newParent, q);
    RejectsIff(p, q);
    if p == q {
      PathInjective(x, id, newParent, p);
    }
  }

  /** Re-parenting after a move that passes the check would keep the index a tree unless the move
      goes into the node itself or below a name that begins with two dots. */
  lemma AdmittedMoveKeepsTreeIff(x: Index, id: Id, newParent: Id, newName: Name)
    requires CanMove(x, id, newParent, newName) && Admits(x, id, newParent)
    ensures Tree(ReParent(x, id, newParent, newName)) <==> newParent != id && !BelowDots(x, id, newParent)
  {
    MoveKeepsTreeIffOutside(x, id, newParent, newName);
    RootInSubtree(x, id);
    if x.entities[id].isDir {
      AdmitsIff(x, id, newParent);
    } else if newParent in SubtreeIds(x, id) {
      NothingBelowFiles(x, id, newParent);
    } else {
      assert !(PathOf(x, id) < PathOf(x, newParent));
    }
  }

  // ----- The two failing inputs -----

  /** A mount "m" with a directory "a" that holds a directory "..x". */
  function Example(): Index {
    var mounts := Index(map[1 := Entity(ZERO, [109], true)], map[], map[[109] := 1]);
    PutNode(PutNode(mounts, 2, Entity(1, [97], true)), 3, Entity(2, [DOT, DOT, 120], true))
  }

  lemma ExampleIsTree()
    ensures var x := Example();
            && Tree(x) && x.entities.Keys == {1, 2, 3}
            && PathOf(x, 2) == [[109], [97]] && PathOf(x, 3) == [[109], [97], [DOT, DOT, 120]]
  {
    var mounts := Index(map[1 := Entity(ZERO, [109], true)], map[], map[[109] := 1]);
    MountsAreTree(mounts);
    var a := Entity(1, [97], true);
    CreateKeepsTree(mounts, 2, a);
    CreateKeepsTree(PutNode(mounts, 2, a), 3, Entity(2, [DOT, DOT, 120], true));
    var x := Example();
    PathOfStep(x, 1);
    PathOfStep(x, 2);
    PathOfStep(x, 3);
  }

  /** Moving "m/a" to "m/a/n" passes the check, and would cut the directory off if re-parented. */
  lemma MoveIntoItselfPasses()
    ensures var x := Example();
            Tree(x) && CanMove(x, 2, 2, [110]) && Admits(x, 2, 2) && !Tree(ReParent(x, 2, 2, [110]))
  {
    ExampleIsTree();
    var x := Example();
    AdmitsIff(x, 2, 2);
    AdmittedMoveKeepsTreeIff(x, 2, 2, [110]);
  }

  /** Moving "m/a" to "m/a/..x/n" passes the check, and would cut the directory off if re-parented. */
  lemma MoveBelowDotsPasses()
    ensures var x := Example();
            Tree(x) && CanMove(x, 2, 3, [110]) && Admits(x, 2, 3) && !Tree(ReParent(x, 2, 3, [110]))
  {
    ExampleIsTree();
    var x := Example();
    AdmitsIff(x, 2, 3);
    AdmittedMoveKeepsTreeIff(x, 2, 3, [110]);
  }
}

/** What moving and deleting nodes does to a tree-shaped index and to every path in it. */
module TreeEdits {
  import opened CacheKeys
  import opened TreeIndex

  /** One batch: drop the old child edge, rewrite the entity, add the new child edge. */
  function ReParent(x: Index, id: Id, newParent: Id, newName: Name): Index
    requires id in x.entities
  {
    var e := x.entities[id];
    PutNode(x.(children := x.children - {(e.parent, e.name)}), id, Entity(newParent, newName, e.isDir))
  }

  /** A node below a mount, and a free name in a directory to move it to. */
  ghost predicate CanMove(x: Index, id: Id, newParent: Id, newName: Name) {
    && Tree(x) && id in x.entities && x.entities[id].parent != ZERO
    && FreeSlot(x, newParent, newName)
  }

  /** A move changes one node's place and nothing else: its kind stays, the slot it leaves is
      empty, the slot it takes leads to it, and every other node and edge is as before. */
  lemma MoveChangesOnePlace(x: Index, id: Id, newParent: Id, newName: Name)
    requires CanMove(x, id, newParent, newName)
    ensures var y, e := ReParent(x, id, newParent, newName), x.entities[id];
            && y.mounts == x.mounts && y.entities.Keys == x.entities.Keys
            && y.entities[id] == Entity(newParent, newName, e.isDir)
            && (forall i | i in x.entities && i != id :: y.entities[i] == x.entities[i])
            && (e.parent, e.name) !in y.children
            && (newParent, newName) in y.children && y.children[(newParent, newName)] == id
            && (forall k | k != (e.parent, e.name) && k != (newParent, newName) ::
                  (k in y.children <==> k in x.children) && (k in x.children ==> y.children[k] == x.children[k]))
  {
    assert EntityOk(x, id);
  }

  /** Everything outside the moved or deleted subtree, ancestors included. */
  lemma OutsideIsShared(x: Index, y: Index, root: Id)
    requires Tree(x) && root in x.entities
    requires forall i | i in x.entities && i !in SubtreeIds(x, root) ::
               i in y.entities && y.entities[i] == x.entities[i]
    ensures SharedAncestry(x, y, x.entities.Keys - SubtreeIds(x, root))
  {
    var keep := x.entities.Keys - SubtreeIds(x, root);
    forall i | i in keep && x.entities[i].parent != ZERO ensures x.entities[i].parent in keep {
      PathOfStep(x, i);
      SubtreeStep(x, root, i);
    }
  }

  lemma RootInSubtree(x: Index, root: Id)
    requires Tree(x) && root in x.entities
    ensures root in SubtreeIds(x, root)
  {
  }

  // ----- Move -----

  lemma MoveKeepsLinked(x: Index, id: Id, newParent: Id, newName: Name)
    requires CanMove(x, id, newParent, newName)
    ensures Linked(ReParent(x, id, newParent, newName))
  {
    var y := ReParent(x, id, newParent, newName);
    assert EntityOk(x, id) && EntityOk(x, newParent);
    forall k ensures EdgeOk(y, k) {
      assert EdgeOk(x, k);
      if k in x.children && x.children[k] == id {
        assert k == (x.entities[id].parent, x.entities[id].name);
      }
    }
    forall i ensures EntityOk(y, i) {
      assert EntityOk(x, i);
    }
    forall n ensures MountOk(y, n) {
      assert MountOk(x, n);
    }
  }

  /** A path outside the moved subtree is the same before and after. */
  lemma OutsidePathKept(x: Index, id: Id, newParent: Id, newName: Name, i: Id, path: seq<Name>)
    requires CanMove(x, id, newParent, newName) && i in x.entities && i !in SubtreeIds(x, id)
    ensures IsPath(ReParent(x, id, newParent, newName), i, path) <==> IsPath(x, i, path)
  {
    var y := ReParent(x, id, newParent, newName);
    RootInSubtree(x, id);
    OutsideIsShared(x, y, id);
    SharedPath(x, y, x.entities.Keys - SubtreeIds(x, id), i, path);
  }

  /** A path inside it has the old prefix replaced by the new one. */
  lemma {:induction false} InsidePathMoved(x: Index, id: Id, newParent: Id, newName: Name, i: Id, rest: seq<Name>)
    requires CanMove(x, id, newParent, newName) && newParent !in SubtreeIds(x, id)
    requires IsPath(x, i, PathOf(x, id) + rest)
    ensures IsPath(ReParent(x, id, newParent, newName), i, PathOf(x, newParent) + [newName] + rest)
    decreases |rest|
  {
    var y := ReParent(x, id, newParent, newName);
    var p, q := PathOf(x, id), PathOf(x, newParent) + [newName];
    if rest == [] {
      assert p + rest == p;
      PathInjective(x, i, id, p);
      OutsidePathKept(x, id, newParent, newName, newParent, PathOf(x, newParent));
      assert q + rest == q && q[..|q| - 1] == PathOf(x, newParent);
      assert EntityOk(x, newParent);
    } else {
      var init, n := rest[..|rest| - 1], rest[|rest| - 1];
      assert (p + rest)[..|p + rest| - 1] == p + init;
      assert (q + rest)[..|q + rest| - 1] == q + init;
      InsidePathMoved(x, id, newParent, newName, x.entities[i].parent, init);
      if i == id {
        PathUnique(x, i, p, p + rest);
      }
    }
  }

  /** In the moved index, any path of a node inside runs through the moved node. */
  lemma {:induction false} InsideRunsThroughMoved(
    x: Index, id: Id, newParent: Id, newName: Name, i: Id, rest: seq<Name>, path: seq<Name>)
    requires CanMove(x, id, newParent, newName)
    requires IsPath(x, i, PathOf(x, id) + rest)
    requires IsPath(ReParent(x, id, newParent, newName), i, path)
    ensures |rest| < |path| && IsPath(ReParent(x, id, newParent, newName), id, path[..|path| - |rest|])
    decreases |rest|
  {
    var p := PathOf(x, id);
    if rest == [] {
      assert p + rest == p && path[..|path|] == path;
      PathInjective(x, i, id, p);
    } else {
      if i == id {
        PathUnique(x, i, p, p + rest);
      }
      var init := rest[..|rest| - 1];
      assert (p + rest)[..|p + rest| - 1] == p + init;
      var up := path[..|path| - 1];
      InsideRunsThroughMoved(x, id, newParent, newName, x.entities[i].parent, init, up);
      assert up[..|up| - |init|] == path[..|path| - |rest|];
    }
  }

  lemma MoveOutsideKeepsTree(x: Index, id: Id, newParent: Id, newName: Name)
    requires CanMove(x, id, newParent, newName) && newParent !in SubtreeIds(x, id)
    ensures Tree(ReParent(x, id, newParent, newName))
  {
    var y := ReParent(x, id, newParent, newName);
    MoveKeepsLinked(x, id, newParent, newName);
    forall i | i in y.entities ensures Rooted(y, i) {
      var p, path := PathOf(x, id), PathOf(x, i);
      if i in SubtreeIds(x, id) {
        assert path == p + path[|p|..];
        InsidePathMoved(x, id, newParent, newName, i, path[|p|..]);
      } else {
        OutsidePathKept(x, id, newParent, newName, i, path);
      }
    }
  }

  lemma MoveInsideCutsOff(x: Index, id: Id, newParent: Id, newName: Name)
    requires CanMove(x, id, newParent, newName) && newParent in SubtreeIds(x, id)
    ensures !Rooted(ReParent(x, id, newParent, newName), id)
  {
    var y := ReParent(x, id, newParent, newName);
    if Rooted(y, id) {
      var s := PathOf(y, id);
      var p, q := PathOf(x, id), PathOf(x, newParent);
      assert q == p + q[|p|..];
      assert EntityOk(x, newParent);
      var up := s[..|s| - 1];
      InsideRunsThroughMoved(x, id, newParent, newName, newParent, q[|p|..], up);
      PathUnique(y, id, s, up[..|up| - |q[|p|..]|]);
    }
  }

  /** A move keeps the index a tree exactly when the new parent is outside the moved subtree. */
  lemma MoveKeepsTreeIffOutside(x: Index, id: Id, newParent: Id, newName: Name)
    requires CanMove(x, id, newParent, newName)
    ensures Tree(ReParent(x, id, newParent, newName)) <==> newParent !in SubtreeIds(x, id)
  {
    if newParent in SubtreeIds(x, id) {
      MoveInsideCutsOff(x, id, newParent, newName);
    } else {
      MoveOutsideKeepsTree(x, id, newParent, newName);
    }
  }

  // ----- Delete -----

  /** The batch that drops each entity of `gone` with the child edge that leads to it. */
  function Prune(x: Index, gone: set<Id>): Index {
    x.(entities := x.entities - gone,
       children := map k | k in x.children && x.children[k] !in gone :: x.children[k])
  }

  /** Deleting a subtree keeps the tree, and every other entity with its path. */
  lemma DeleteKeepsTree(x: Index, root: Id)
    requires Tree(x) && root in x.entities && x.entities[root].parent != ZERO
    ensures Tree(Prune(x, SubtreeIds(x, root)))
    ensures forall i, path | i in x.entities && i !in SubtreeIds(x, root) ::
              IsPath(Prune(x, SubtreeIds(x, root)), i, path) <==> IsPath(x, i, path)
  {
    var gone := SubtreeIds(x, root);
    var y := Prune(x, gone);
    OutsideIsShared(x, y, root);
    forall i, path | i in x.entities && i !in gone ensures IsPath(y, i, path) <==> IsPath(x, i, path) {
      SharedPath(x, y, x.entities.Keys - gone, i, path);
    }
    forall i | i in y.entities ensures Rooted(y, i) {
      assert IsPath(y, i, PathOf(x, i));
    }
    DeleteKeepsLinked(x, root);
  }

  lemma DeleteKeepsLinked(x: Index, root: Id)
    requires Tree(x) && root in x.entities && x.entities[root].parent != ZERO
    ensures Linked(Prune(x, SubtreeIds(x, root)))
  {
    var gone := SubtreeIds(x, root);
    var y := Prune(x, gone);
    RootInSubtree(x, root);
    forall k ensures EdgeOk(y, k) {
      assert EdgeOk(x, k);
      if k in y.children {
        SubtreeStep(x, root, x.children[k]);
        assert EntityOk(x, k.0);
      }
    }
    forall i ensures EntityOk(y, i) {
      assert EntityOk(x, i);
    }
    forall n ensures MountOk(y, n) {
      assert MountOk(x, n);
      if n in x.mounts {
        SubtreeStep(x, root, x.mounts[n]);
      }
    }
  }
}

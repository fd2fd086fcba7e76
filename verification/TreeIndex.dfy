/** The metadata index as a tree: entities with parent pointers, child edges, mounts as roots. */
module TreeIndex {
  import opened CacheKeys
  import opened Wrappers

  type Id = nat

  /** The zero id stands for "no parent". */
  const ZERO: Id := 0

  datatype Entity = Entity(parent: Id, name: Name, isDir: bool)

  datatype Index = Index(entities: map<Id, Entity>, children: map<(Id, Name), Id>, mounts: map<Name, Id>)

  /** `path` is the chain of names from a mount down to `id`, read along parent pointers. */
  predicate IsPath(x: Index, id: Id, path: seq<Name>)
    decreases |path|
  {
    && path != []
    && id in x.entities
    && x.entities[id].name == path[|path| - 1]
    && (if |path| == 1 then x.entities[id].parent == ZERO
        else x.entities[id].parent != ZERO && IsPath(x, x.entities[id].parent, path[..|path| - 1]))
  }

  ghost predicate Rooted(x: Index, id: Id) {
    exists path :: IsPath(x, id, path)
  }

  ghost predicate EdgeOk(x: Index, k: (Id, Name)) {
    k in x.children ==>
      && k.0 in x.entities && x.entities[k.0].isDir
      && x.children[k] in x.entities
      && x.entities[x.children[k]].parent == k.0 && x.entities[x.children[k]].name == k.1
  }

  ghost predicate EntityOk(x: Index, id: Id) {
    id in x.entities ==>
      var e := x.entities[id];
      && id != ZERO && SegmentName(e.name)
      && (if e.parent == ZERO then e.name in x.mounts && x.mounts[e.name] == id
          else (e.parent, e.name) in x.children && x.children[(e.parent, e.name)] == id)
  }

  ghost predicate MountOk(x: Index, n: Name) {
    n in x.mounts ==>
      x.mounts[n] in x.entities && x.entities[x.mounts[n]].parent == ZERO && x.entities[x.mounts[n]].name == n
  }

  /** Parent pointers and child edges agree, names are path segments, mounts are the roots. */
  ghost predicate Linked(x: Index) {
    && (forall k :: EdgeOk(x, k))
    && (forall id :: EntityOk(x, id))
    && (forall n :: MountOk(x, n))
  }

  /** A tree-shaped index: linked, and every entity hangs below a mount. */
  ghost predicate Tree(x: Index) {
    Linked(x) && forall id | id in x.entities :: Rooted(x, id)
  }

  ghost function PathOf(x: Index, id: Id): (path: seq<Name>)
    requires Rooted(x, id)
    ensures IsPath(x, id, path)
  {
    var path :| IsPath(x, id, path);
    path
  }

  /** The uncached downward walk: mount first, then one child edge per name. */
  function Resolve(x: Index, path: seq<Name>): Option<Id>
    decreases |path|
  {
    if path == [] then None
    else if |path| == 1 then (if path[0] in x.mounts then Some(x.mounts[path[0]]) else None)
    else
      match Resolve(x, path[..|path| - 1])
      case None => None
      case Some(p) =>
        if (p, path[|path| - 1]) in x.children then Some(x.children[(p, path[|path| - 1])]) else None
  }

  // ----- Paths in a linked index -----

  lemma {:induction false} PathUnique(x: Index, id: Id, p: seq<Name>, q: seq<Name>)
    requires IsPath(x, id, p) && IsPath(x, id, q)
    ensures p == q
    decreases |p|
  {
    if x.entities[id].parent != ZERO {
      PathUnique(x, x.entities[id].parent, p[..|p| - 1], q[..|q| - 1]);
    }
    assert p == p[..|p| - 1] + [p[|p| - 1]] && q == q[..|q| - 1] + [q[|q| - 1]];
  }

  /** Walking down by names and walking up by parents are inverse to each other. */
  lemma {:induction false} ResolveInvertsPath(x: Index, path: seq<Name>, id: Id)
    requires Linked(x)
    ensures Resolve(x, path) == Some(id) <==> IsPath(x, id, path)
    decreases |path|
  {
    assert EntityOk(x, id);
    if |path| == 1 {
      assert MountOk(x, path[0]);
    } else if |path| > 1 {
      var init, n := path[..|path| - 1], path[|path| - 1];
      if IsPath(x, id, path) {
        ResolveInvertsPath(x, init, x.entities[id].parent);
      }
      match Resolve(x, init)
      case None =>
      case Some(p) =>
        ResolveInvertsPath(x, init, p);
        assert EdgeOk(x, (p, n)) && EntityOk(x, p);
    }
  }

  /** No two entities share a path. */
  lemma PathInjective(x: Index, a: Id, b: Id, path: seq<Name>)
    requires Linked(x) && IsPath(x, a, path) && IsPath(x, b, path)
    ensures a == b
  {
    ResolveInvertsPath(x, path, a);
    ResolveInvertsPath(x, path, b);
  }

  lemma {:induction false} PathIsSegments(x: Index, id: Id, path: seq<Name>)
    requires Linked(x) && IsPath(x, id, path)
    ensures SegmentPath(path)
    decreases |path|
  {
    assert EntityOk(x, id);
    if |path| > 1 {
      PathIsSegments(x, x.entities[id].parent, path[..|path| - 1]);
    }
    assert path == path[..|path| - 1] + [path[|path| - 1]];
  }

  lemma PathOfStep(x: Index, id: Id)
    requires Tree(x) && id in x.entities
    ensures var e := x.entities[id];
            if e.parent == ZERO then PathOf(x, id) == [e.name]
            else e.parent in x.entities && PathOf(x, id) == PathOf(x, e.parent) + [e.name]
  {
    var e, path := x.entities[id], PathOf(x, id);
    assert path == path[..|path| - 1] + [e.name];
    if e.parent != ZERO {
      assert IsPath(x, e.parent, path[..|path| - 1]);
      PathUnique(x, e.parent, path[..|path| - 1], PathOf(x, e.parent));
    }
  }

  // ----- Subtrees -----

  /** The entities at or below `root`: those whose path extends the path of `root`. */
  ghost function SubtreeIds(x: Index, root: Id): set<Id>
    requires Tree(x) && root in x.entities
  {
    set id | id in x.entities && PathOf(x, root) <= PathOf(x, id)
  }

  lemma SubtreeStep(x: Index, root: Id, id: Id)
    requires Tree(x) && root in x.entities && id in x.entities && id != root
    ensures id in SubtreeIds(x, root) <==>
            x.entities[id].parent != ZERO && x.entities[id].parent in SubtreeIds(x, root)
  {
    var p, q := PathOf(x, root), PathOf(x, id);
    PathOfStep(x, id);
    if p == q {
      PathInjective(x, root, id, p);
    }
    if p <= q {
      assert p <= q[..|q| - 1];
    }
  }

  /** `keep` holds entities that `x` and `y` agree on, together with all their ancestors. */
  ghost predicate SharedAncestry(x: Index, y: Index, keep: set<Id>) {
    forall id | id in keep ::
      && id in x.entities && id in y.entities && x.entities[id] == y.entities[id]
      && (x.entities[id].parent != ZERO ==> x.entities[id].parent in keep)
  }

  lemma {:induction false} SharedPath(x: Index, y: Index, keep: set<Id>, id: Id, path: seq<Name>)
    requires SharedAncestry(x, y, keep) && id in keep
    ensures IsPath(x, id, path) <==> IsPath(y, id, path)
    decreases |path|
  {
    if |path| > 1 && x.entities[id].parent != ZERO {
      SharedPath(x, y, keep, x.entities[id].parent, path[..|path| - 1]);
    }
  }

  // ----- Create -----

  /** PutEntity and PutChild for one node. */
  function PutNode(x: Index, id: Id, e: Entity): Index {
    x.(entities := x.entities[id := e], children := x.children[(e.parent, e.name) := id])
  }

  /** A free name in an existing directory. */
  predicate FreeSlot(x: Index, parent: Id, name: Name) {
    && parent in x.entities && x.entities[parent].isDir
    && SegmentName(name) && (parent, name) !in x.children
  }

  lemma CreateKeepsLinked(x: Index, id: Id, e: Entity)
    requires Linked(x) && id !in x.entities && id != ZERO && FreeSlot(x, e.parent, e.name)
    ensures Linked(PutNode(x, id, e))
  {
    var y := PutNode(x, id, e);
    assert EntityOk(x, e.parent);
    forall k ensures EdgeOk(y, k) {
      assert EdgeOk(x, k);
    }
    forall i ensures EntityOk(y, i) {
      assert EntityOk(x, i);
    }
    forall n ensures MountOk(y, n) {
      assert MountOk(x, n);
    }
  }

  /** Creating a node keeps the tree and every existing path, and puts the node below its parent. */
  lemma CreateKeepsTree(x: Index, id: Id, e: Entity)
    requires Tree(x) && id !in x.entities && id != ZERO && FreeSlot(x, e.parent, e.name)
    ensures Tree(PutNode(x, id, e))
    ensures forall i, path | i in x.entities :: IsPath(PutNode(x, id, e), i, path) <==> IsPath(x, i, path)
    ensures IsPath(PutNode(x, id, e), id, PathOf(x, e.parent) + [e.name])
  {
    var y := PutNode(x, id, e);
    CreateKeepsLinked(x, id, e);
    assert SharedAncestry(x, y, x.entities.Keys) by {
      forall i | i in x.entities && x.entities[i].parent != ZERO ensures x.entities[i].parent in x.entities {
        assert EntityOk(x, i);
        assert EdgeOk(x, (x.entities[i].parent, x.entities[i].name));
      }
    }
    forall i, path | i in x.entities ensures IsPath(y, i, path) <==> IsPath(x, i, path) {
      SharedPath(x, y, x.entities.Keys, i, path);
    }
    var p := PathOf(x, e.parent);
    assert EntityOk(x, e.parent);
    assert IsPath(y, e.parent, p);
    assert (p + [e.name])[..|p|] == p;
    assert IsPath(y, id, p + [e.name]);
    forall i | i in y.entities ensures Rooted(y, i) {
      if i != id {
        assert IsPath(y, i, PathOf(x, i));
      }
    }
  }

  /** An index that holds nothing but its mount roots is a tree. */
  lemma MountsAreTree(x: Index)
    requires x.children == map[]
    requires forall n | n in x.mounts ::
               && SegmentName(n) && x.mounts[n] != ZERO
               && x.mounts[n] in x.entities && x.entities[x.mounts[n]] == Entity(ZERO, n, true)
    requires forall id | id in x.entities :: x.entities[id].name in x.mounts && x.mounts[x.entities[id].name] == id
    ensures Tree(x)
  {
    forall id | id in x.entities ensures Rooted(x, id) {
      assert IsPath(x, id, [x.entities[id].name]);
    }
  }
}

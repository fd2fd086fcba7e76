/** The service's two path caches over the tree index, under lookup, create, rename, move and
    delete with arbitrary eviction. */
module TreeCaches {
  import opened ByteStrings
  import opened CacheKeys
  import opened PathLocks
  import opened TreeIndex
  import opened Wrappers

  /** Bound on the parent-chain walks. */
  const MAX_PARENT_CHAIN_DEPTH: nat := 4096

  /** Dropping everything at or under `prefix` from both caches drops the pairs of this path;
      the empty prefix drops everything. */
  predicate Dropped(prefix: Bytes, path: seq<Name>) {
    prefix == [] ||
    (&& AncestorOrEqual(prefix, Join(path, SLASH))
     && AncestorOrEqual(prefix, NormalizeKey([SLASH] + Join(path, SLASH))))
  }

  /** What is known of the caches: nothing, that every pair is current, or that every pair is
      current or will be dropped together with `prefix`. */
  datatype Claim = Unknown | Fresh | StaleUnder(prefix: Bytes)

  /** `path` is the path of `id`, or a leftover the claim allows. */
  ghost predicate Current(x: Index, c: Claim, id: Id, path: seq<Name>) {
    SegmentPath(path) && (IsPath(x, id, path) || (c.StaleUnder? && Dropped(c.prefix, path)))
  }

  ghost predicate KeyCurrent(x: Index, c: Claim, id: Id, key: Bytes) {
    exists path :: Current(x, c, id, path) && key == Join(path, SLASH)
  }

  ghost predicate ValueCurrent(x: Index, c: Claim, id: Id, vp: Bytes) {
    vp != [] && vp[0] == SLASH && KeyCurrent(x, c, id, vp[1..])
  }

  /** Every cached pair is current as far as the claim goes. */
  ghost predicate Sound(x: Index, cache: map<Bytes, Id>, idPaths: map<Id, Bytes>, c: Claim) {
    c.Unknown? ||
    (&& (forall key | key in cache :: KeyCurrent(x, c, cache[key], key))
     && (forall id | id in idPaths :: ValueCurrent(x, c, id, idPaths[id])))
  }

  /** Invalidating `prefix` drops every pair that can be cached for the subtree of `root`. */
  ghost predicate Clears(x: Index, root: Id, prefix: Bytes)
    requires Tree(x) && root in x.entities
  {
    forall id | id in SubtreeIds(x, root) :: Dropped(prefix, PathOf(x, id))
  }

  function KeysNotUnder(cache: map<Bytes, Id>, prefix: Bytes): map<Bytes, Id> {
    map key | key in cache && prefix != [] && !AncestorOrEqual(prefix, key) :: cache[key]
  }

  function ValuesNotUnder(idPaths: map<Id, Bytes>, prefix: Bytes): map<Id, Bytes> {
    map id | id in idPaths && prefix != [] && !AncestorOrEqual(prefix, NormalizeKey(idPaths[id])) :: idPaths[id]
  }

  function Reversed(s: seq<Name>): (r: seq<Name>)
    ensures |r| == |s|
  {
    if s == [] then [] else [s[|s| - 1]] + Reversed(s[..|s| - 1])
  }

  // ----- What the caches mean -----

  /** A sound path-to-id entry is what the uncached downward walk finds. */
  lemma CachedKeyResolves(x: Index, id: Id, key: Bytes)
    requires Linked(x) && KeyCurrent(x, Fresh, id, key)
    ensures Resolve(x, Split(key, SLASH)) == Some(id)
  {
    var path :| Current(x, Fresh, id, path) && key == Join(path, SLASH);
    SplitUndoesJoin(path, SLASH);
    ResolveInvertsPath(x, path, id);
  }

  /** A sound id-to-path entry is what the uncached parent walk spells. */
  lemma CachedValueIsPath(x: Index, id: Id, vp: Bytes)
    requires Tree(x) && ValueCurrent(x, Fresh, id, vp)
    ensures id in x.entities && vp == [SLASH] + Join(PathOf(x, id), SLASH)
  {
    var path :| Current(x, Fresh, id, path) && vp[1..] == Join(path, SLASH);
    PathUnique(x, id, path, PathOf(x, id));
  }

  lemma PathIsCurrent(x: Index, c: Claim, id: Id, path: seq<Name>)
    requires Linked(x) && IsPath(x, id, path)
    ensures KeyCurrent(x, c, id, Join(path, SLASH))
    ensures ValueCurrent(x, c, id, [SLASH] + Join(path, SLASH))
  {
    PathIsSegments(x, id, path);
    assert Current(x, c, id, path);
    assert ([SLASH] + Join(path, SLASH))[1..] == Join(path, SLASH);
  }

  // ----- Invalidation -----

  lemma FreshUnlessUnder(x: Index, prefix: Bytes, id: Id, key: Bytes)
    requires KeyCurrent(x, StaleUnder(prefix), id, key) && prefix != [] && !AncestorOrEqual(prefix, key)
    ensures KeyCurrent(x, Fresh, id, key)
  {
    var path :| Current(x, StaleUnder(prefix), id, path) && key == Join(path, SLASH);
    assert Current(x, Fresh, id, path);
  }

  lemma ValueFreshUnlessUnder(x: Index, prefix: Bytes, id: Id, vp: Bytes)
    requires ValueCurrent(x, StaleUnder(prefix), id, vp)
    requires prefix != [] && !AncestorOrEqual(prefix, NormalizeKey(vp))
    ensures ValueCurrent(x, Fresh, id, vp)
  {
    var path :| Current(x, StaleUnder(prefix), id, path) && vp[1..] == Join(path, SLASH);
    assert vp == [SLASH] + Join(path, SLASH);
    assert Current(x, Fresh, id, path);
  }

  /** Dropping everything under the stale prefix from both caches leaves only current pairs. */
  lemma InvalidationClearsStale(x: Index, cache: map<Bytes, Id>, idPaths: map<Id, Bytes>, prefix: Bytes)
    requires Sound(x, cache, idPaths, StaleUnder(prefix))
    ensures Sound(x, KeysNotUnder(cache, prefix), ValuesNotUnder(idPaths, prefix), Fresh)
  {
    var keys, values := KeysNotUnder(cache, prefix), ValuesNotUnder(idPaths, prefix);
    forall key | key in keys ensures KeyCurrent(x, Fresh, keys[key], key) {
      FreshUnlessUnder(x, prefix, cache[key], key);
    }
    forall id | id in values ensures ValueCurrent(x, Fresh, id, values[id]) {
      ValueFreshUnlessUnder(x, prefix, id, idPaths[id]);
    }
  }

  /** Only paths at or below `root` change from `x` to `y`. */
  ghost predicate EditsBelow(x: Index, y: Index, root: Id)
    requires Tree(x) && root in x.entities
  {
    forall id, path | IsPath(x, id, path) && !(PathOf(x, root) <= path) :: IsPath(y, id, path)
  }

  /** Soundness after an edit at or below `root` whose old pairs `prefix` will drop. */
  lemma EditMakesStale(
    x: Index, y: Index, cache: map<Bytes, Id>, idPaths: map<Id, Bytes>, root: Id, prefix: Bytes)
    requires Tree(x) && root in x.entities && EditsBelow(x, y, root)
    requires Clears(x, root, prefix) && Sound(x, cache, idPaths, Fresh)
    ensures Sound(y, cache, idPaths, StaleUnder(prefix))
  {
    var c := StaleUnder(prefix);
    forall id, key | KeyCurrent(x, Fresh, id, key) ensures KeyCurrent(y, c, id, key) {
      var path :| Current(x, Fresh, id, path) && key == Join(path, SLASH);
      PathUnique(x, id, path, PathOf(x, id));
      assert Current(y, c, id, path);
    }
  }

  /** No entity of the subtree keeps its path from `x` to `y`, as after a move or a delete. */
  ghost predicate AllPathsGo(x: Index, y: Index, root: Id)
    requires Tree(x) && root in x.entities
  {
    forall id | id in SubtreeIds(x, root) :: !IsPath(y, id, PathOf(x, id))
  }

  /** Invalidating `prefix` keeps whatever may be cached sound if and only if it drops every
      pair of the subtree that was edited. */
  lemma InvalidationSuffices(x: Index, y: Index, root: Id, prefix: Bytes)
    requires Tree(x) && root in x.entities && EditsBelow(x, y, root) && AllPathsGo(x, y, root)
    ensures (forall cache, idPaths | Sound(x, cache, idPaths, Fresh) ::
               Sound(y, KeysNotUnder(cache, prefix), ValuesNotUnder(idPaths, prefix), Fresh)) <==>
            Clears(x, root, prefix)
  {
    if Clears(x, root, prefix) {
      forall cache, idPaths | Sound(x, cache, idPaths, Fresh)
        ensures Sound(y, KeysNotUnder(cache, prefix), ValuesNotUnder(idPaths, prefix), Fresh)
      {
        EditMakesStale(x, y, cache, idPaths, root, prefix);
        InvalidationClearsStale(y, cache, idPaths, prefix);
      }
    } else {
      var id :| id in SubtreeIds(x, root) && !Dropped(prefix, PathOf(x, id));
      SurvivingPair(x, y, id, prefix);
    }
  }

  /** A pair that invalidation leaves behind although the entity has lost the path. */
  lemma SurvivingPair(x: Index, y: Index, id: Id, prefix: Bytes)
    requires Tree(x) && id in x.entities && !Dropped(prefix, PathOf(x, id)) && !IsPath(y, id, PathOf(x, id))
    ensures exists cache, idPaths :: Sound(x, cache, idPaths, Fresh) &&
              !Sound(y, KeysNotUnder(cache, prefix), ValuesNotUnder(idPaths, prefix), Fresh)
  {
    var path := PathOf(x, id);
    var key := Join(path, SLASH);
    PathIsSegments(x, id, path);
    PathIsCurrent(x, Fresh, id, path);
    assert !KeyCurrent(y, Fresh, id, key) by {
      if KeyCurrent(y, Fresh, id, key) {
        var other :| Current(y, Fresh, id, other) && key == Join(other, SLASH);
        JoinInjective(path, other);
      }
    }
    assert ([SLASH] + key)[1..] == key;
    if !AncestorOrEqual(prefix, key) {
      var cache: map<Bytes, Id>, none: map<Id, Bytes> := map[key := id], map[];
      assert Sound(x, cache, none, Fresh);
      assert key in KeysNotUnder(cache, prefix);
      assert !Sound(y, KeysNotUnder(cache, prefix), ValuesNotUnder(none, prefix), Fresh);
    } else {
      var none: map<Bytes, Id>, idPaths: map<Id, Bytes> := map[], map[id := [SLASH] + key];
      assert Sound(x, none, idPaths, Fresh);
      assert id in ValuesNotUnder(idPaths, prefix);
      assert !Sound(y, KeysNotUnder(none, prefix), ValuesNotUnder(idPaths, prefix), Fresh);
    }
  }

  /** What is known of the caches right after an edit at or below `root`. */
  ghost function AfterEdit(x: Index, root: Id, prefix: Bytes): Claim
    requires Tree(x) && root in x.entities
  {
    if Clears(x, root, prefix) then StaleUnder(prefix) else Unknown
  }

  lemma EditClaim(x: Index, y: Index, cache: map<Bytes, Id>, idPaths: map<Id, Bytes>, root: Id, prefix: Bytes)
    requires Tree(x) && root in x.entities && EditsBelow(x, y, root) && Sound(x, cache, idPaths, Fresh)
    ensures Sound(y, cache, idPaths, AfterEdit(x, root, prefix))
  {
    if Clears(x, root, prefix) {
      EditMakesStale(x, y, cache, idPaths, root, prefix);
    }
  }

  /** A plain node whose descendants are keyed below it is cleared by its own path. In
      particular this holds when every path of the subtree is plain. */
  lemma PlainRootClears(x: Index, root: Id)
    requires Tree(x) && root in x.entities && PlainPath(PathOf(x, root))
    requires forall id | id in SubtreeIds(x, root) ::
               AncestorOrEqual(Join(PathOf(x, root), SLASH), NormalizeKey([SLASH] + Join(PathOf(x, id), SLASH)))
    ensures Clears(x, root, Join(PathOf(x, root), SLASH))
  {
    forall id | id in SubtreeIds(x, root) ensures Dropped(Join(PathOf(x, root), SLASH), PathOf(x, id)) {
      PathIsSegments(x, id, PathOf(x, id));
      PrefixTestIsSubtree(PathOf(x, root), PathOf(x, id));
    }
  }

  lemma PlainSubtreeClears(x: Index, root: Id)
    requires Tree(x) && root in x.entities
    requires forall id | id in SubtreeIds(x, root) :: PlainPath(PathOf(x, id))
    ensures Clears(x, root, Join(PathOf(x, root), SLASH))
  {
    assert root in SubtreeIds(x, root);
    forall id | id in SubtreeIds(x, root)
      ensures AncestorOrEqual(Join(PathOf(x, root), SLASH), NormalizeKey([SLASH] + Join(PathOf(x, id), SLASH)))
    {
      PlainPathIsItsKey(PathOf(x, id));
      PrefixTestIsSubtree(PathOf(x, root), PathOf(x, id));
    }
    PlainRootClears(x, root);
  }

  lemma EditKeepsSound(x: Index, y: Index, cache: map<Bytes, Id>, idPaths: map<Id, Bytes>)
    requires Sound(x, cache, idPaths, Fresh)
    requires forall id, path | IsPath(x, id, path) :: IsPath(y, id, path)
    ensures Sound(y, cache, idPaths, Fresh)
  {
    forall id, key | KeyCurrent(x, Fresh, id, key) ensures KeyCurrent(y, Fresh, id, key) {
      var path :| Current(x, Fresh, id, path) && key == Join(path, SLASH);
      assert Current(y, Fresh, id, path);
    }
  }
}

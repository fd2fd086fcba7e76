/** The service operations that read or change the tree index, with the two path caches they
    keep: path to id, and id to path. Every operation keeps the index a tree; lookups and
    creates keep the caches sound, and renames, moves and deletes do so when the key they
    invalidate drops every pair of the paths they change. */
module TreeService {
  import opened ByteStrings
  import opened CacheKeys
  import opened PathLocks
  import opened TreeIndex
  import opened TreeEdits
  import opened TreeCaches
  import opened Wrappers

  datatype RenameResult = Done | NotFound | InvalidArgument | Forbidden | Conflict

  /** The answer to a rename request with a trimmed name. "." and ".." name directories that
      exist, so they count as taken. */
  function RenameOutcome(x: Index, id: Id, name: Name): RenameResult {
    if id !in x.entities then NotFound
    else if name == [] || SLASH in name then InvalidArgument
    else if x.entities[id].parent == ZERO then Forbidden
    else if name == x.entities[id].name then Done
    else if name == [DOT] || name == [DOT, DOT] || (x.entities[id].parent, name) in x.children then Conflict
    else Done
  }

  /** The node is no mount root. */
  ghost predicate BelowMount(x: Index, id: Id)
    requires Tree(x)
  {
    id in x.entities && |PathOf(x, id)| > 1
  }

  /** What each answer means, said of the paths in the tree: the node is missing; the name
      cannot be a name; the node is a mount; the path it would get is another node's (or "."
      or ".."); and otherwise the node keeps its name or can move to the new one. */
  ghost predicate Answers(x: Index, id: Id, name: Name, r: RenameResult)
    requires Tree(x)
  {
    && (r.NotFound? <==> !exists path :: IsPath(x, id, path))
    && (r.InvalidArgument? <==> id in x.entities && (name == [] || !Lacks(name, SLASH)))
    && (r.Forbidden? <==> id in x.mounts.Values && name != [] && Lacks(name, SLASH))
    && (r.Conflict? <==>
          && BelowMount(x, id) && name != [] && Lacks(name, SLASH)
          && var up := PathOf(x, id)[..|PathOf(x, id)| - 1];
          && PathOf(x, id) != up + [name]
          && (name in {[DOT], [DOT, DOT]} || Resolve(x, up + [name]).Some?))
    && (r.Done? <==>
          BelowMount(x, id) && (name == x.entities[id].name || CanMove(x, id, x.entities[id].parent, name)))
  }

  lemma RenameAnswers(x: Index, id: Id, name: Name)
    requires Tree(x)
    ensures Answers(x, id, name, RenameOutcome(x, id, name))
  {
    assert EntityOk(x, id);
    assert SLASH in name <==> !Lacks(name, SLASH);
    MountsHaveNoParent(x, id);
    if id in x.entities {
      var e := x.entities[id];
      PathOfStep(x, id);
      assert Rooted(x, id);
      if e.parent != ZERO {
        var up := PathOf(x, e.parent);
        assert PathOf(x, id)[..|up|] == up && |PathOf(x, id)| > 1;
        assert PathOf(x, id) == up + [name] <==> name == e.name;
        TakenIffResolves(x, e.parent, name);
        assert EdgeOk(x, (e.parent, e.name));
      }
    }
  }

  lemma MountsHaveNoParent(x: Index, id: Id)
    requires Tree(x)
    ensures id in x.mounts.Values <==> id in x.entities && x.entities[id].parent == ZERO
  {
    assert EntityOk(x, id);
    if id in x.mounts.Values {
      var n :| n in x.mounts && x.mounts[n] == id;
      assert MountOk(x, n);
    }
  }

  lemma TakenIffResolves(x: Index, parent: Id, name: Name)
    requires Tree(x) && parent in x.entities
    ensures (parent, name) in x.children <==> Resolve(x, PathOf(x, parent) + [name]).Some?
  {
    var up := PathOf(x, parent);
    ResolveInvertsPath(x, up, parent);
    assert (up + [name])[..|up|] == up;
  }

  function Elements(s: seq<Id>): set<Id> {
    set id | id in s
  }

  class Service {
    var index: Index
    var cache: map<Bytes, Id>
    var idPaths: map<Id, Bytes>

    ghost predicate Valid()
      reads this
    {
      Tree(index) && Sound(index, cache, idPaths, Fresh)
    }

    /** A tree, and caches as good as claimed. */
    ghost predicate Holds(claim: Claim)
      reads this
    {
      Tree(index) && Sound(index, cache, idPaths, claim)
    }

    /** A new service: its mount roots, and empty caches. */
    constructor (mounts: map<Name, Id>)
      requires forall n | n in mounts :: SegmentName(n) && mounts[n] != ZERO
      requires forall n, m | n in mounts && m in mounts && mounts[n] == mounts[m] :: n == m
      ensures Valid() && index.mounts == mounts && index.children == map[] && cache == map[] && idPaths == map[]
      ensures forall n | n in mounts :: IsPath(index, mounts[n], [n])
    {
      var entities: map<Id, Entity>, names := map[], mounts.Keys;
      while names != {}
        invariant names <= mounts.Keys
        invariant forall n | n in mounts && n !in names ::
                    mounts[n] in entities && entities[mounts[n]] == Entity(ZERO, n, true)
        invariant forall id | id in entities ::
                    entities[id].name in mounts && mounts[entities[id].name] == id && entities[id].name !in names
      {
        var n :| n in names;
        entities := entities[mounts[n] := Entity(ZERO, n, true)];
        names := names - {n};
      }
      index, cache, idPaths := Index(entities, map[], mounts), map[], map[];
      new;
      MountsAreTree(index);
    }

    // ----- Cache primitives -----

    /** LRU insertion: any entries may be evicted, the new one included. */
    method AddKey(key: Bytes, id: Id, ghost claim: Claim)
      requires Holds(claim) && KeyCurrent(index, claim, id, key)
      modifies `cache
      ensures Holds(claim)
      ensures forall k | k in cache :: (k == key && cache[k] == id) || (k in old(cache) && cache[k] == old(cache[k]))
    {
      var grown := cache[key := id];
      var evicted: set<Bytes> :| evicted <= grown.Keys;
      cache := grown - evicted;
    }

    method AddValue(id: Id, vp: Bytes, ghost claim: Claim)
      requires Holds(claim) && ValueCurrent(index, claim, id, vp)
      modifies `idPaths
      ensures Holds(claim)
      ensures forall i | i in idPaths ::
                (i == id && idPaths[i] == vp) || (i in old(idPaths) && idPaths[i] == old(idPaths[i]))
    {
      var grown := idPaths[id := vp];
      var evicted: set<Id> :| evicted <= grown.Keys;
      idPaths := grown - evicted;
    }

    method RemoveKey(key: Bytes, ghost claim: Claim)
      requires Holds(claim)
      modifies `cache
      ensures Holds(claim) && cache == old(cache) - {key}
    {
      cache := cache - {key};
    }

    method Purge()
      requires Tree(index)
      modifies `cache, `idPaths
      ensures Valid() && cache == map[] && idPaths == map[]
    {
      cache, idPaths := map[], map[];
    }

    // ----- Lookups -----

    /** The uncached parent-chain walk, shared by the two path resolvers. */
    method WalkUp(id: Id) returns (r: Option<seq<Name>>)
      requires Tree(index)
      ensures r.Some? <==> id in index.entities && |PathOf(index, id)| <= MAX_PARENT_CHAIN_DEPTH
      ensures r.Some? ==> r.value == PathOf(index, id)
    {
      var segments: seq<Name>, cur := [], id;
      while true
        invariant |segments| <= MAX_PARENT_CHAIN_DEPTH
        invariant Climbed(index, id, cur, segments)
        decreases MAX_PARENT_CHAIN_DEPTH - |segments|
      {
        if |segments| >= MAX_PARENT_CHAIN_DEPTH {
          return None;
        }
        if cur !in index.entities {
          return None;
        }
        var e := index.entities[cur];
        ClimbStep(index, id, cur, segments);
        segments := segments + [e.name];
        if e.parent == ZERO {
          break;
        }
        cur := e.parent;
      }
      return Some(Reversed(segments));
    }

    /** With sound caches this is exactly the uncached walk's answer, and it is only missing
        where that walk gives up. */
    method VirtualPath(id: Id, ghost claim: Claim) returns (r: Option<Bytes>)
      requires Holds(claim)
      modifies `idPaths
      ensures Holds(claim)
      ensures r.Some? && !claim.Unknown? ==> ValueCurrent(index, claim, id, r.value)
      ensures r.Some? <==>
              id in old(idPaths) || (id in index.entities && |PathOf(index, id)| <= MAX_PARENT_CHAIN_DEPTH)
      ensures claim.Fresh? && r.Some? ==>
                id in index.entities && r.value == [SLASH] + Join(PathOf(index, id), SLASH)
    {
      if id in idPaths {
        r := Some(idPaths[id]);
      } else {
        var walked := WalkUp(id);
        if walked.None? {
          return None;
        }
        PathIsCurrent(index, claim, id, walked.value);
        r := Some([SLASH] + Join(walked.value, SLASH));
        AddValue(id, r.value, claim);
      }
      if claim.Fresh? {
        CachedValueIsPath(index, id, r.value);
      }
    }

    /** The cached resolver returns what the uncached downward walk returns. */
    method ResolvePathId(vp: Bytes, parts: seq<Name>) returns (r: Option<Id>)
      requires Valid()
      requires parts != [] && vp == Join(parts, SLASH) && forall n | n in parts :: Lacks(n, SLASH)
      modifies `cache, `idPaths
      ensures Valid()
      ensures r == Resolve(index, parts)
    {
      SplitUndoesJoin(parts, SLASH);
      if vp in cache {
        r := Some(cache[vp]);
        CachedKeyResolves(index, cache[vp], vp);
        ResolveInvertsPath(index, parts, cache[vp]);
        PathIsCurrent(index, Fresh, cache[vp], parts);
        AddValue(cache[vp], [SLASH] + vp, Fresh);
        return;
      }
      if parts[0] !in index.mounts {
        ResolveStops(index, parts, 1);
        return None;
      }
      var cur := index.mounts[parts[0]];
      for i := 1 to |parts|
        invariant Resolve(index, parts[..i]) == Some(cur)
      {
        assert parts[..i + 1][..i] == parts[..i];
        if (cur, parts[i]) !in index.children {
          ResolveStops(index, parts, i + 1);
          return None;
        }
        cur := index.children[(cur, parts[i])];
      }
      assert parts[..|parts|] == parts;
      ResolveInvertsPath(index, parts, cur);
      PathIsCurrent(index, Fresh, cur, parts);
      AddKey(vp, cur, Fresh);
      AddValue(cur, [SLASH] + vp, Fresh);
      return Some(cur);
    }

    // ----- Invalidation -----

    method DropKeysUnder(prefix: Bytes)
      requires prefix != []
      modifies `cache
      ensures cache == KeysNotUnder(old(cache), prefix)
    {
      var keys := cache.Keys;
      while keys != {}
        invariant keys <= cache.Keys <= old(cache).Keys
        invariant forall k | k in cache :: cache[k] == old(cache)[k]
        invariant forall k | k in old(cache) && k !in keys :: k in cache <==> !AncestorOrEqual(prefix, k)
      {
        var key :| key in keys;
        if AncestorOrEqual(prefix, key) {
          cache := cache - {key};
        }
        keys := keys - {key};
      }
    }

    method DropValuesUnder(prefix: Bytes)
      requires prefix != []
      modifies `idPaths
      ensures idPaths == ValuesNotUnder(old(idPaths), prefix)
    {
      var ids := idPaths.Keys;
      while ids != {}
        invariant ids <= idPaths.Keys <= old(idPaths).Keys
        invariant forall i | i in idPaths :: idPaths[i] == old(idPaths)[i]
        invariant forall i | i in old(idPaths) && i !in ids ::
                    i in idPaths <==> !AncestorOrEqual(prefix, NormalizeKey(old(idPaths)[i]))
      {
        var id :| id in ids;
        if AncestorOrEqual(prefix, NormalizeKey(idPaths[id])) {
          idPaths := idPaths - {id};
        }
        ids := ids - {id};
      }
    }

    /** Drops every pair at or under a path from both caches. */
    method InvalidatePrefix(path: Bytes)
      modifies `cache, `idPaths
      ensures cache == KeysNotUnder(old(cache), NormalizeKey(path))
      ensures idPaths == ValuesNotUnder(old(idPaths), NormalizeKey(path))
      ensures NormalizeKey(path) == [] ==> cache == map[] && idPaths == map[]
    {
      var prefix := NormalizeKey(path);
      if prefix == [] {
        cache, idPaths := map[], map[];
      } else {
        DropKeysUnder(prefix);
        DropValuesUnder(prefix);
      }
    }

    /** Invalidating the key a claim speaks of leaves only current pairs. */
    method InvalidateStale(path: Bytes, ghost claim: Claim)
      requires Holds(claim) && (claim.StaleUnder? ==> NormalizeKey(path) == claim.prefix)
      modifies `cache, `idPaths
      ensures Holds(Cleared(claim))
    {
      if claim.StaleUnder? {
        InvalidationClearsStale(index, cache, idPaths, claim.prefix);
      }
      InvalidatePrefix(path);
    }

    /** Drops the pairs under a node's current path; when the walk gives up, both caches go. */
    method InvalidateById(id: Id, ghost claim: Claim)
      requires Holds(claim)
      modifies `cache, `idPaths
      ensures Holds(claim)
      ensures !(id in index.entities && |PathOf(index, id)| <= MAX_PARENT_CHAIN_DEPTH) ==> Valid()
    {
      idPaths := idPaths - {id};
      var vp := VirtualPath(id, claim);
      if vp.None? {
        Purge();
        return;
      }
      var key := NormalizeKey(vp.value);
      if key == [] {
        return;
      }
      InvalidatePrefix(key);
      DropParentKey(key, claim);
    }

    method DropParentKey(key: Bytes, ghost claim: Claim)
      requires Holds(claim)
      modifies `cache
      ensures Holds(claim) && cache == old(cache) - (if ParentKey(key) == [] then {} else {ParentKey(key)})
    {
      var parent := ParentKey(key);
      if parent != [] {
        RemoveKey(parent, claim);
      } else {
        assert cache == cache - {};
      }
    }

    method InvalidatePath(path: Option<Bytes>, ghost claim: Claim)
      requires Holds(claim)
      modifies `cache
      ensures Holds(claim) && cache.Keys <= old(cache).Keys
    {
      if path.Some? && NormalizeKey(path.value) != [] {
        RemoveKey(NormalizeKey(path.value), claim);
      }
    }

    // ----- Changes -----

    /** Indexing one path: a new id in a free place, or an id already indexed there. */
    method SyncSingle(id: Id, parent: Id, name: Name, isDir: bool)
      requires Valid() && id != ZERO && parent != ZERO
      requires if id in index.entities then index.entities[id] == Entity(parent, name, isDir)
               else FreeSlot(index, parent, name)
      modifies this
      ensures Valid()
      ensures index == PutNode(old(index), id, Entity(parent, name, isDir))
      ensures parent in index.entities && PathOf(index, id) == PathOf(index, parent) + [name]
      ensures forall i, path | i in old(index).entities :: IsPath(index, i, path) <==> IsPath(old(index), i, path)
    {
      var e := Entity(parent, name, isDir);
      PutKeepsTree(index, id, e);
      ghost var x := index;
      index := PutNode(index, id, e);
      EditKeepsSound(x, index, cache, idPaths);
      PathOfStep(index, id);
      InvalidateById(id, Fresh);
      var parentPath := VirtualPath(parent, Fresh);
      if parentPath.Some? {
        InvalidatePath(parentPath, Fresh);
        InvalidatePath(Some(parentPath.value + [SLASH] + name), Fresh);
      }
    }

    /** Renaming in place. Missing nodes, unusable names, mounts and taken names change nothing. */
    method Rename(id: Id, requested: Name) returns (r: RenameResult)
      requires Valid()
      modifies this
      ensures Tree(index)
      ensures r == RenameOutcome(old(index), id, TrimSpace(requested))
      ensures Answers(old(index), id, TrimSpace(requested), r)
      ensures !r.Done? || old(index).entities[id].name == TrimSpace(requested) ==> Valid()
      ensures r.Done? && KeyOnce(old(index), id) != [] && Clears(old(index), id, KeyTwice(old(index), id)) ==> Valid()
      ensures var x := old(index);
              var name := TrimSpace(requested);
              if r.Done? && x.entities[id].name != name
              then CanMove(x, id, x.entities[id].parent, name) && index == ReParent(x, id, x.entities[id].parent, name)
              else index == x
    {
      RenameAnswers(index, id, TrimSpace(requested));
      if id !in index.entities {
        return NotFound;
      }
      var e := index.entities[id];
      var before := VirtualPath(id, Fresh);
      var oldKey := if before.Some? then NormalizeKey(before.value) else [];
      var name := TrimSpace(requested);
      if name == [] || SLASH in name {
        return InvalidArgument;
      }
      if e.parent == ZERO {
        return Forbidden;
      }
      if name != e.name {
        if name == [DOT] || name == [DOT, DOT] || (e.parent, name) in index.children {
          return Conflict;
        }
        assert EntityOk(index, id) && EdgeOk(index, (e.parent, e.name));
      }
      ApplyRename(id, name, before, oldKey);
      return Done;
    }

    /** The index batch of a rename that passed the checks, if the name changes at all, and the
        invalidation that follows. */
    method ApplyRename(id: Id, name: Name, ghost before: Option<Bytes>, oldKey: Bytes)
      requires Valid() && id in index.entities
      requires name == index.entities[id].name || CanMove(index, id, index.entities[id].parent, name)
      requires before.Some? ==> before.value == [SLASH] + Join(PathOf(index, id), SLASH)
      requires oldKey == if before.Some? then KeyOnce(index, id) else []
      requires before.None? ==> |PathOf(index, id)| > MAX_PARENT_CHAIN_DEPTH
      modifies this
      ensures Tree(index)
      ensures old(index).entities[id].name == name ==> Valid()
      ensures KeyOnce(old(index), id) != [] && Clears(old(index), id, KeyTwice(old(index), id)) ==> Valid()
      ensures index == if old(index).entities[id].name != name
                       then ReParent(old(index), id, old(index).entities[id].parent, name) else old(index)
    {
      ghost var x := index;
      ghost var claim := Fresh;
      if name != index.entities[id].name {
        claim := AfterEdit(x, id, KeyTwice(x, id));
        RenameIsMove(index, id, name);
        index := ReParent(index, id, index.entities[id].parent, name);
        EditClaim(x, index, cache, idPaths, id, KeyTwice(x, id));
      }
      InvalidateRenamed(id, oldKey, claim);
    }

    /** The old key if there is one, then the node's present path. */
    method InvalidateRenamed(id: Id, oldKey: Bytes, ghost claim: Claim)
      requires Holds(claim) && (claim.StaleUnder? && oldKey != [] ==> NormalizeKey(oldKey) == claim.prefix)
      modifies `cache, `idPaths
      ensures Holds(if oldKey == [] then claim else Cleared(claim))
      ensures !(id in index.entities && |PathOf(index, id)| <= MAX_PARENT_CHAIN_DEPTH) ==> Valid()
    {
      if oldKey != [] {
        InvalidateStale(oldKey, claim);
        DropParentKey(oldKey, Cleared(claim));
        InvalidateById(id, Cleared(claim));
      } else {
        InvalidateById(id, claim);
      }
    }

    /** Re-parenting after a move. The paths of old and new parent are read before the stale
        pairs are gone; they are only used to drop more. */
    method Move(id: Id, newParent: Id, newName: Name) returns (ok: bool)
      requires Valid()
      requires id in index.entities ==>
                 CanMove(index, id, newParent, newName) && newParent !in SubtreeIds(index, id)
      modifies this
      ensures Tree(index)
      ensures ok <==> id in old(index).entities && old(|PathOf(index, newParent)|) <= MAX_PARENT_CHAIN_DEPTH
      ensures !ok || Clears(old(index), id, KeyOnce(old(index), id)) ==> Valid()
      ensures index == if ok then ReParent(old(index), id, newParent, newName) else old(index)
    {
      if id !in index.entities {
        return false;
      }
      var oldParent := index.entities[id].parent;
      var oldPath := VirtualPath(id, Fresh);
      var target := WalkUp(newParent);
      if target.None? {
        return false;
      }
      ghost var x := index;
      ghost var claim := AfterEdit(x, id, KeyOnce(x, id));
      MoveKeepsOutsidePaths(x, id, newParent, newName);
      index := ReParent(index, id, newParent, newName);
      EditClaim(x, index, cache, idPaths, id, KeyOnce(x, id));
      var oldParentPath := VirtualPath(oldParent, claim);
      var newParentPath := VirtualPath(newParent, claim);
      if oldPath.Some? {
        InvalidateStale(oldPath.value, claim);
      } else {
        Purge();
      }
      claim := Cleared(claim);
      InvalidateById(id, claim);
      InvalidatePath(oldParentPath, claim);
      InvalidatePath(newParentPath, claim);
      return true;
    }

    method PushAll(stack: seq<Id>, kids: set<Id>) returns (r: seq<Id>)
      ensures forall id :: id in r <==> id in stack || id in kids
    {
      r := stack;
      var left := kids;
      while left != {}
        invariant left <= kids
        invariant forall id :: id in r <==> id in stack || id in kids - left
      {
        var kid :| kid in left;
        r := r + [kid];
        left := left - {kid};
      }
    }

    /** The worklist that gathers a subtree before it is deleted: each of its nodes once. */
    method CollectSubtree(root: Id) returns (order: seq<Id>)
      requires Tree(index) && root in index.entities
      ensures forall i, j | 0 <= i < j < |order| :: order[i] != order[j]
      ensures forall id :: id in order <==> id in SubtreeIds(index, root)
    {
      var stack, seen: set<Id> := [root], {};
      order := [];
      while stack != []
        invariant forall i, j | 0 <= i < j < |order| :: order[i] != order[j]
        invariant seen == Elements(order)
        invariant seen <= SubtreeIds(index, root)
        invariant forall id | id in stack :: id in SubtreeIds(index, root)
        invariant root in seen || root in stack
        invariant forall k | k in index.children && k.0 in seen ::
                    index.children[k] in seen || index.children[k] in stack
        decreases SubtreeIds(index, root) - seen, |stack|
      {
        var cur := stack[|stack| - 1];
        assert cur in stack;
        assert forall id | id in stack :: id == cur || id in stack[..|stack| - 1];
        stack := stack[..|stack| - 1];
        if cur in seen {
          continue;
        }
        seen := seen + {cur};
        order := order + [cur];
        if index.entities[cur].isDir {
          ChildrenInSubtree(index, root, cur);
          stack := PushAll(stack, Children(index, cur));
        }
        assert forall k | k in index.children && k.0 == cur :: EdgeOk(index, k);
      }
      forall id | id in SubtreeIds(index, root) ensures id in seen {
        ReachedByEdges(index, root, seen, id);
      }
    }

    /** The delete batch, last collected node first: child edge, then entity. */
    method DeleteBatch(order: seq<Id>)
      requires Linked(index)
      requires forall id | id in order :: id in index.entities && index.entities[id].parent != ZERO
      modifies `index
      ensures index == Prune(old(index), Elements(order))
    {
      ghost var x := index;
      var entities, children := index.entities, index.children;
      var i := |order|;
      while i > 0
        invariant 0 <= i <= |order|
        invariant entities == x.entities - Elements(order[i..])
        invariant children ==
                  x.children - (set id | id in Elements(order[i..]) :: (x.entities[id].parent, x.entities[id].name))
      {
        i := i - 1;
        var e := index.entities[order[i]];
        assert order[i..] == [order[i]] + order[i + 1..];
        children := children - {(e.parent, e.name)};
        entities := entities - {order[i]};
      }
      assert order[0..] == order;
      EdgesIntoDeleted(x, Elements(order));
      index := index.(entities := entities, children := children);
    }

    method RemoveNodes(root: Id)
      requires Tree(index) && root in index.entities && index.entities[root].parent != ZERO
      modifies `index
      ensures Tree(index) && index == Prune(old(index), old(SubtreeIds(index, root)))
    {
      var order := CollectSubtree(root);
      SubtreeHasNoMount(index, root);
      DeleteKeepsTree(index, root);
      assert Elements(order) == SubtreeIds(index, root);
      DeleteBatch(order);
    }

    /** Deleting removes exactly the subtree: its entities, the edges that lead to them and the
        cached pairs under it. Mount roots are refused by the callers. */
    method DeleteSubtree(root: Id)
      requires Valid()
      requires root in index.entities ==> index.entities[root].parent != ZERO
      modifies this
      ensures Tree(index)
      ensures root !in old(index).entities ==> Valid()
      ensures root in old(index).entities && KeyOnce(old(index), root) == [] ==> Valid()
      ensures root in old(index).entities && Clears(old(index), root, KeyTwice(old(index), root)) ==> Valid()
      ensures index == if root in old(index).entities
                       then Prune(old(index), old(SubtreeIds(index, root))) else old(index)
    {
      if root !in index.entities {
        return;
      }
      var rootPath := VirtualPath(root, Fresh);
      var rootKey := if rootPath.Some? then NormalizeKey(rootPath.value) else [];
      ghost var x := index;
      DeleteKeepsOutsidePaths(x, root);
      RemoveNodes(root);
      EditClaim(x, index, cache, idPaths, root, KeyTwice(x, root));
      ghost var claim := AfterEdit(x, root, KeyTwice(x, root));
      if rootKey != [] {
        InvalidateStale(rootKey, claim);
        DropParentKey(rootKey, Cleared(claim));
      } else {
        Purge();
      }
    }
  }

  /** `segments` are the names climbed over on the way from `id` up to `cur`. */
  ghost predicate Climbed(x: Index, id: Id, cur: Id, segments: seq<Name>)
    requires Tree(x)
  {
    if segments == [] then cur == id
    else cur in x.entities && id in x.entities && PathOf(x, id) == PathOf(x, cur) + Reversed(segments)
  }

  lemma ClimbStep(x: Index, id: Id, cur: Id, segments: seq<Name>)
    requires Tree(x) && cur in x.entities && Climbed(x, id, cur, segments)
    ensures var e := x.entities[cur];
            && id in x.entities
            && (if e.parent == ZERO then PathOf(x, id) == Reversed(segments + [e.name])
                else Climbed(x, id, e.parent, segments + [e.name]))
  {
    var e := x.entities[cur];
    PathOfStep(x, cur);
    if e.parent == ZERO {
      ReversedBehind([], e.name, segments);
    } else {
      ReversedBehind(PathOf(x, e.parent), e.name, segments);
    }
  }

  lemma ReversedBehind(p: seq<Name>, n: Name, segments: seq<Name>)
    ensures p + [n] + Reversed(segments) == p + Reversed(segments + [n])
    ensures [n] + Reversed(segments) == Reversed(segments + [n])
  {
    assert (segments + [n])[..|segments|] == segments;
  }

  /** Once a prefix of the names does not resolve, no longer path does. */
  lemma {:induction false} ResolveStops(x: Index, path: seq<Name>, n: nat)
    requires 1 <= n <= |path| && Resolve(x, path[..n]) == None
    ensures Resolve(x, path) == None
    decreases |path|
  {
    if n == |path| {
      assert path[..n] == path;
    } else {
      assert path[..|path| - 1][..n] == path[..n];
      ResolveStops(x, path[..|path| - 1], n);
    }
  }

  /** What is known once the key a claim speaks of has been invalidated. */
  ghost function Cleared(claim: Claim): Claim {
    if claim.StaleUnder? then Fresh else claim
  }

  /** The keys under which an operation that normalises a node's path once, or twice, drops
      its cached pairs. */
  ghost function KeyOnce(x: Index, id: Id): Bytes
    requires Tree(x) && id in x.entities
  {
    NormalizeKey([SLASH] + Join(PathOf(x, id), SLASH))
  }

  ghost function KeyTwice(x: Index, id: Id): Bytes
    requires Tree(x) && id in x.entities
  {
    NormalizeKey(KeyOnce(x, id))
  }

  lemma PutKeepsTree(x: Index, id: Id, e: Entity)
    requires Tree(x) && id != ZERO && e.parent != ZERO
    requires if id in x.entities then x.entities[id] == e else FreeSlot(x, e.parent, e.name)
    ensures Tree(PutNode(x, id, e))
    ensures forall i, path | i in x.entities :: IsPath(PutNode(x, id, e), i, path) <==> IsPath(x, i, path)
  {
    if id in x.entities {
      assert EntityOk(x, id);
      assert PutNode(x, id, e) == x;
    } else {
      CreateKeepsTree(x, id, e);
    }
  }

  /** Renaming is moving within the same parent: it keeps the tree, every path outside the
      subtree, and the depth of the renamed node. */
  lemma RenameIsMove(x: Index, id: Id, name: Name)
    requires id in x.entities && CanMove(x, id, x.entities[id].parent, name)
    ensures var y := ReParent(x, id, x.entities[id].parent, name);
            && Tree(y)
            && |PathOf(y, id)| == |PathOf(x, id)|
            && EditsBelow(x, y, id)
  {
    var parent := x.entities[id].parent;
    PathOfStep(x, id);
    MoveKeepsOutsidePaths(x, id, parent, name);
    var y := ReParent(x, id, parent, name);
    PathUnique(y, id, PathOf(y, id), PathOf(x, parent) + [name]);
  }

  lemma MoveKeepsOutsidePaths(x: Index, id: Id, newParent: Id, newName: Name)
    requires CanMove(x, id, newParent, newName) && newParent !in SubtreeIds(x, id)
    ensures var y := ReParent(x, id, newParent, newName);
            && Tree(y)
            && IsPath(y, id, PathOf(x, newParent) + [newName])
            && EditsBelow(x, y, id)
  {
    var y := ReParent(x, id, newParent, newName);
    MoveOutsideKeepsTree(x, id, newParent, newName);
    assert PathOf(x, id) + [] == PathOf(x, id);
    InsidePathMoved(x, id, newParent, newName, id, []);
    assert PathOf(x, newParent) + [newName] + [] == PathOf(x, newParent) + [newName];
    forall i, p | IsPath(x, i, p) && !(PathOf(x, id) <= p) ensures IsPath(y, i, p) {
      PathUnique(x, i, p, PathOf(x, i));
      OutsidePathKept(x, id, newParent, newName, i, p);
    }
  }

  // ----- Deletion -----

  function Children(x: Index, parent: Id): set<Id> {
    set k | k in x.children && k.0 == parent :: x.children[k]
  }

  lemma ChildrenInSubtree(x: Index, root: Id, id: Id)
    requires Tree(x) && root in x.entities && id in SubtreeIds(x, root)
    ensures Children(x, id) <= SubtreeIds(x, root)
  {
    forall k | k in x.children && k.0 == id ensures x.children[k] in SubtreeIds(x, root) {
      assert EdgeOk(x, k) && EntityOk(x, id);
      if x.children[k] != root {
        SubtreeStep(x, root, x.children[k]);
      } else {
        RootInSubtree(x, root);
      }
    }
  }

  /** A set closed under child edges that holds the root holds its whole subtree. */
  lemma {:induction false} ReachedByEdges(x: Index, root: Id, seen: set<Id>, id: Id)
    requires Tree(x) && root in seen && root in x.entities && id in SubtreeIds(x, root)
    requires forall k | k in x.children && k.0 in seen :: x.children[k] in seen
    ensures id in seen
    decreases |PathOf(x, id)|
  {
    if id != root {
      var e := x.entities[id];
      SubtreeStep(x, root, id);
      PathOfStep(x, id);
      assert EntityOk(x, id);
      ReachedByEdges(x, root, seen, e.parent);
      assert (e.parent, e.name) in x.children;
    }
  }

  lemma SubtreeHasNoMount(x: Index, root: Id)
    requires Tree(x) && root in x.entities && x.entities[root].parent != ZERO
    ensures forall id | id in SubtreeIds(x, root) :: x.entities[id].parent != ZERO
  {
    forall id | id in SubtreeIds(x, root) ensures x.entities[id].parent != ZERO {
      if id != root {
        SubtreeStep(x, root, id);
      }
    }
  }

  lemma EdgesIntoDeleted(x: Index, gone: set<Id>)
    requires Linked(x)
    requires forall id | id in gone :: id in x.entities && x.entities[id].parent != ZERO
    ensures Prune(x, gone).children ==
            x.children - (set id | id in gone :: (x.entities[id].parent, x.entities[id].name))
  {
    forall id | id in gone ensures EntityOk(x, id) {
    }
    forall k | k in x.children ensures EdgeOk(x, k) {
    }
  }

  lemma DeleteKeepsOutsidePaths(x: Index, root: Id)
    requires Tree(x) && root in x.entities && x.entities[root].parent != ZERO
    ensures var y := Prune(x, SubtreeIds(x, root));
            EditsBelow(x, y, root)
  {
    var y := Prune(x, SubtreeIds(x, root));
    DeleteKeepsTree(x, root);
    forall i, p | IsPath(x, i, p) && !(PathOf(x, root) <= p) ensures IsPath(y, i, p) {
      PathUnique(x, i, p, PathOf(x, i));
    }
  }

  // ----- How much has to be invalidated -----

  /** Whatever may be cached, a move leaves the caches sound if and only if the key it
      invalidates drops every pair of the moved subtree. */
  lemma MoveNeedsClearing(x: Index, id: Id, newParent: Id, newName: Name, prefix: Bytes)
    requires CanMove(x, id, newParent, newName) && newParent !in SubtreeIds(x, id)
    ensures (forall cache, idPaths | Sound(x, cache, idPaths, Fresh) ::
               Sound(ReParent(x, id, newParent, newName),
                     KeysNotUnder(cache, prefix), ValuesNotUnder(idPaths, prefix), Fresh)) <==>
            Clears(x, id, prefix)
  {
    var y := ReParent(x, id, newParent, newName);
    MoveKeepsOutsidePaths(x, id, newParent, newName);
    forall i | i in SubtreeIds(x, id) ensures !IsPath(y, i, PathOf(x, i)) {
      MovedPathIsNew(x, id, newParent, newName, i);
    }
    InvalidationSuffices(x, y, id, prefix);
  }

  lemma MovedPathIsNew(x: Index, id: Id, newParent: Id, newName: Name, i: Id)
    requires CanMove(x, id, newParent, newName) && newParent !in SubtreeIds(x, id) && i in SubtreeIds(x, id)
    ensures !IsPath(ReParent(x, id, newParent, newName), i, PathOf(x, i))
  {
    var y := ReParent(x, id, newParent, newName);
    var p, q, path := PathOf(x, id), PathOf(x, newParent) + [newName], PathOf(x, i);
    var rest := path[|p|..];
    assert path == p + rest;
    InsidePathMoved(x, id, newParent, newName, i, rest);
    assert EntityOk(x, id);
    if IsPath(y, i, path) {
      PathUnique(y, i, path, q + rest);
      assert |p| == |q|;
      assert p == path[..|p|] && q == (q + rest)[..|q|];
      PathOfStep(x, id);
      assert p[..|p| - 1] == PathOf(x, newParent);
      PathInjective(x, x.entities[id].parent, newParent, p[..|p| - 1]);
    }
  }

  /** And the same for a delete. */
  lemma DeleteNeedsClearing(x: Index, root: Id, prefix: Bytes)
    requires Tree(x) && root in x.entities && x.entities[root].parent != ZERO
    ensures (forall cache, idPaths | Sound(x, cache, idPaths, Fresh) ::
               Sound(Prune(x, SubtreeIds(x, root)),
                     KeysNotUnder(cache, prefix), ValuesNotUnder(idPaths, prefix), Fresh)) <==>
            Clears(x, root, prefix)
  {
    var y := Prune(x, SubtreeIds(x, root));
    DeleteKeepsOutsidePaths(x, root);
    InvalidationSuffices(x, y, root, prefix);
  }
}

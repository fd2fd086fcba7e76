/** The hierarchical path-lock manager: point and subtree locks over slash-separated keys. */
module PathLocks {
  import opened ByteStrings

  type Key = Bytes

  datatype Kind = Point | Subtree

  datatype Lock = Lock(kind: Kind, key: Key)

  datatype LockState = LockState(pointCount: nat, subtreeCount: nat)

  type Holders = map<Key, LockState>

  /** Canonical lock-map key of a path inside a mount. */
  function LockKey(mount: Bytes, relPath: Bytes): (key: Key)
    ensures mount != [] ==> key != []
    ensures AncestorOrEqual(mount, key)
  {
    if relPath == [] then mount else mount + [SLASH] + relPath
  }

  predicate AncestorOrEqual(a: Key, b: Key) {
    a == b || a + [SLASH] <= b
  }

  /** Keys of different mounts or of unrelated paths are unrelated, and keys of related paths of
      one mount are related. */
  lemma LockKeyKeepsAncestry(mount: Bytes, rel: Bytes, mount': Bytes, rel': Bytes)
    requires Lacks(mount, SLASH) && Lacks(mount', SLASH)
    ensures LockKey(mount, rel) == LockKey(mount', rel') <==> mount == mount' && rel == rel'
    ensures AncestorOrEqual(LockKey(mount, rel), LockKey(mount', rel')) <==>
            mount == mount' && (rel == [] || AncestorOrEqual(rel, rel'))
  {
    var k, k' := LockKey(mount, rel), LockKey(mount', rel');
    if |mount| < |mount'| {
      assert k' != mount ==> |k'| > |mount| && k'[|mount|] == mount'[|mount|];
    } else if |mount'| < |mount| && |k'| > |mount'| {
      assert k'[|mount'|] == SLASH && k[|mount'|] == mount[|mount'|];
    }
    assert k[..|mount|] == mount && k'[..|mount'|] == mount';
    if mount == mount' {
      var n := |mount| + 1;
      assert rel != [] ==> k[n..] == rel;
      assert rel' != [] ==> k'[n..] == rel';
      if rel != [] && rel' != [] {
        assert k + [SLASH] == mount + [SLASH] + (rel + [SLASH]);
        assert (k + [SLASH])[n..] == rel + [SLASH];
        assert k + [SLASH] <= k' ==> rel + [SLASH] <= k'[n..];
        if rel + [SLASH] <= rel' {
          assert k' == mount + [SLASH] + (rel + [SLASH] + rel'[|rel| + 1..]);
        }
      }
    }
  }

  /** The paths a lock protects: a point lock its own key, a subtree lock every descendant too. */
  predicate Covers(l: Lock, path: Key) {
    if l.kind.Point? then path == l.key else AncestorOrEqual(l.key, path)
  }

  /** Two locks exclude each other exactly when some path is protected by both. */
  ghost predicate Conflict(x: Lock, y: Lock) {
    exists path :: Covers(x, path) && Covers(y, path)
  }

  predicate Held(holders: Holders, l: Lock) {
    l.key in holders &&
    (if l.kind.Point? then holders[l.key].pointCount > 0 else holders[l.key].subtreeCount > 0)
  }

  /** Two ancestors of one path are ancestors of each other. */
  lemma AncestorsNest(a: Key, b: Key, path: Key)
    requires AncestorOrEqual(a, path) && AncestorOrEqual(b, path) && |a| <= |b|
    ensures AncestorOrEqual(a, b)
  {
    assert a == path[..|a|] && b == path[..|b|];
    if |a| < |b| {
      assert b[..|a| + 1] == path[..|a| + 1] == a + [SLASH];
    }
  }

  lemma AncestorTransitive(a: Key, b: Key, c: Key)
    requires AncestorOrEqual(a, b) && AncestorOrEqual(b, c)
    ensures AncestorOrEqual(a, c)
  {
    if a != b && b != c {
      assert b[..|a| + 1] == a + [SLASH] && c[..|b|] == b;
      assert c[..|a| + 1] == c[..|b|][..|a| + 1];
    }
  }

  /** Overlap of protected paths is the ancestor relation between the two keys. */
  lemma ConflictByAncestry(x: Lock, y: Lock)
    ensures Conflict(x, y) <==>
            || x.key == y.key
            || (x.kind.Subtree? && AncestorOrEqual(x.key, y.key))
            || (y.kind.Subtree? && AncestorOrEqual(y.key, x.key))
  {
    if Conflict(x, y) {
      var path :| Covers(x, path) && Covers(y, path);
      assert AncestorOrEqual(x.key, path) && AncestorOrEqual(y.key, path);
      if |x.key| <= |y.key| {
        AncestorsNest(x.key, y.key, path);
      } else {
        AncestorsNest(y.key, x.key, path);
      }
    } else {
      assert !(Covers(x, x.key) && Covers(y, x.key));
      assert !(Covers(x, y.key) && Covers(y, y.key));
    }
  }

  lemma ConflictSymmetric(x: Lock, y: Lock)
    ensures Conflict(x, y) <==> Conflict(y, x)
  {
    ConflictByAncestry(x, y);
    ConflictByAncestry(y, x);
  }

  /** The one lock the acquisition tests cannot see: the ancestor walk stops before the
      empty key, so a subtree lock held there is not noticed from below. */
  predicate Unseen(request: Lock, l: Lock) {
    l == Lock(Subtree, []) && (request.kind.Point? || request.key != [])
  }

  /** What the acquisition tests decide: no conflicting lock is held, except an unseen one. */
  ghost predicate Admits(holders: Holders, request: Lock) {
    forall l | Held(holders, l) && Conflict(request, l) :: Unseen(request, l)
  }

  /** With no lock on the empty key, the tests are exactly the conflict rule. */
  lemma AdmitsIsConflictFree(holders: Holders, request: Lock)
    requires [] !in holders
    ensures Admits(holders, request) <==> forall l | Held(holders, l) :: !Conflict(request, l)
  {
    if Admits(holders, request) {
      forall l | Held(holders, l) ensures !Conflict(request, l) {
      }
    }
  }

  /** A held lock on the empty key is why the exclusion above is needed: the test for "/x"
      lets the request through although it overlaps the held subtree. */
  lemma EmptyKeyEscapesTheTest()
    ensures var holders: Holders := map[[] := LockState(0, 1)];
            var request := Lock(Point, [SLASH, 120]);
            && Held(holders, Lock(Subtree, []))
            && Conflict(request, Lock(Subtree, []))
            && Admits(holders, request)
  {
    var holders: Holders := map[[] := LockState(0, 1)];
    var request := Lock(Point, [SLASH, 120]);
    assert Covers(Lock(Subtree, []), request.key);
    assert Covers(request, request.key);
    forall l | Held(holders, l) && Conflict(request, l) ensures Unseen(request, l) {
    }
  }

  function LastSlash(path: Key): (i: int)
    ensures -1 <= i < |path|
    ensures i >= 0 ==> path[i] == SLASH
    ensures forall j | i < j < |path| :: path[j] != SLASH
  {
    if path == [] then -1
    else if path[|path| - 1] == SLASH then |path| - 1
    else LastSlash(path[..|path| - 1])
  }

  /** The key one level up, or the empty key when there is none. */
  function ParentKey(path: Key): (p: Key)
    ensures path != [] ==> |p| < |path|
    ensures p != [] ==> AncestorOrEqual(p, path)
    ensures forall q | AncestorOrEqual(q, path) && q != path :: |q| <= |p|
  {
    var i := LastSlash(path);
    assert forall q | AncestorOrEqual(q, path) && q != path :: path[|q|] == SLASH;
    if i < 0 then [] else
      assert path[..i + 1] == path[..i] + [SLASH];
      path[..i]
  }

  /** `holders` after the lock is counted in. */
  function Take(holders: Holders, l: Lock): Holders {
    var h := if l.key in holders then holders[l.key] else LockState(0, 0);
    holders[l.key := if l.kind.Point? then h.(pointCount := h.pointCount + 1)
                     else h.(subtreeCount := h.subtreeCount + 1)]
  }

  /** `holders` after the lock is counted out; releasing a lock nobody holds changes nothing. */
  function Drop(holders: Holders, l: Lock): Holders {
    if !Held(holders, l) then holders else
      var h := holders[l.key];
      var h' := if l.kind.Point? then h.(pointCount := h.pointCount - 1)
                else h.(subtreeCount := h.subtreeCount - 1);
      if h'.pointCount == 0 && h'.subtreeCount == 0 then holders - {l.key} else holders[l.key := h']
  }

  /** Releasing what was just taken restores the table, whatever else it holds. */
  lemma DropUndoesTake(holders: Holders, l: Lock)
    requires forall k | k in holders :: holders[k].pointCount > 0 || holders[k].subtreeCount > 0
    ensures Drop(Take(holders, l), l) == holders
  {
  }

  class PathLockManager {
    var holders: Holders

    constructor ()
      ensures holders == map[]
    {
      holders := map[];
    }

    /** Walks the ancestors of `path`, itself included, looking for a subtree lock. */
    method AncestorSubtreeHeld(path: Key, exceptSelf: bool) returns (found: bool)
      ensures found <==> exists q :: q != [] && AncestorOrEqual(q, path) && !(exceptSelf && q == path)
                                     && Held(holders, Lock(Subtree, q))
    {
      var p := path;
      while p != []
        invariant p != [] ==> AncestorOrEqual(p, path)
        invariant forall q | |p| < |q| && AncestorOrEqual(q, path) && !(exceptSelf && q == path) ::
                    !Held(holders, Lock(Subtree, q))
        decreases |p|
      {
        if Held(holders, Lock(Subtree, p)) && !(exceptSelf && p == path) {
          return true;
        }
        var parent := ParentKey(p);
        if parent != [] { AncestorTransitive(parent, p, path); }
        forall q | |parent| < |q| && AncestorOrEqual(q, path) && !(exceptSelf && q == path)
          ensures !Held(holders, Lock(Subtree, q))
        {
          if |q| <= |p| {
            AncestorsNest(q, p, path);
            assert q == p;
          }
        }
        p := parent;
      }
      return false;
    }

    /** Scans every holder for a proper descendant of `path`. */
    method DescendantHeld(path: Key) returns (found: bool)
      ensures found <==> exists q :: q != path && AncestorOrEqual(path, q)
                                     && (Held(holders, Lock(Point, q)) || Held(holders, Lock(Subtree, q)))
    {
      var todo := holders.Keys;
      while todo != {}
        invariant todo <= holders.Keys
        invariant forall q | q in holders.Keys - todo && q != path && AncestorOrEqual(path, q) ::
                    !Held(holders, Lock(Point, q)) && !Held(holders, Lock(Subtree, q))
        decreases |todo|
      {
        var p :| p in todo;
        if p != path && path + [SLASH] <= p && (holders[p].pointCount > 0 || holders[p].subtreeCount > 0) {
          assert Held(holders, Lock(Point, p)) || Held(holders, Lock(Subtree, p));
          return true;
        }
        todo := todo - {p};
      }
      return false;
    }

    method CanAcquirePoint(path: Key) returns (ok: bool)
      ensures ok <==> Admits(holders, Lock(Point, path))
    {
      var request := Lock(Point, path);
      var above := AncestorSubtreeHeld(path, false);
      ok := !above && !Held(holders, request);
      forall l ensures Conflict(request, l) <==> l == request || (l.kind.Subtree? && AncestorOrEqual(l.key, path)) {
        ConflictByAncestry(request, l);
      }
      if above {
        var q :| q != [] && AncestorOrEqual(q, path) && Held(holders, Lock(Subtree, q));
        assert Conflict(request, Lock(Subtree, q));
      }
    }

    method CanAcquireSubtree(path: Key) returns (ok: bool)
      ensures ok <==> Admits(holders, Lock(Subtree, path))
    {
      var request := Lock(Subtree, path);
      var above := AncestorSubtreeHeld(path, true);
      var self := Held(holders, Lock(Point, path)) || Held(holders, Lock(Subtree, path));
      var below := DescendantHeld(path);
      ok := !above && !self && !below;
      forall l ensures Conflict(request, l) <==>
                       AncestorOrEqual(path, l.key) || (l.kind.Subtree? && AncestorOrEqual(l.key, path)) {
        ConflictByAncestry(request, l);
      }
      if above {
        var q :| q != [] && AncestorOrEqual(q, path) && q != path && Held(holders, Lock(Subtree, q));
        assert Conflict(request, Lock(Subtree, q));
      } else if self {
        var l := if Held(holders, Lock(Point, path)) then Lock(Point, path) else Lock(Subtree, path);
        assert Conflict(request, l) && Held(holders, l);
      } else if below {
        var q :| q != path && AncestorOrEqual(path, q)
                 && (Held(holders, Lock(Point, q)) || Held(holders, Lock(Subtree, q)));
        var l := if Held(holders, Lock(Point, q)) then Lock(Point, q) else Lock(Subtree, q);
        assert Conflict(request, l) && Held(holders, l);
      } else {
        forall l | Held(holders, l) && Conflict(request, l) ensures Unseen(request, l) {
        }
      }
    }

    /** One pass of the wait loop: claim the lock if nothing conflicting is held, else wait. */
    method TryAcquire(l: Lock) returns (ok: bool)
      modifies this
      ensures ok <==> Admits(old(holders), l)
      ensures holders == if ok then Take(old(holders), l) else old(holders)
    {
      if l.kind.Point? {
        ok := CanAcquirePoint(l.key);
      } else {
        ok := CanAcquireSubtree(l.key);
      }
      if ok {
        var h := if l.key in holders then holders[l.key] else LockState(0, 0);
        holders := holders[l.key := h];
        if l.kind.Point? {
          holders := holders[l.key := h.(pointCount := h.pointCount + 1)];
        } else {
          holders := holders[l.key := h.(subtreeCount := h.subtreeCount + 1)];
        }
      }
    }

    method Release(l: Lock)
      modifies this
      ensures holders == Drop(old(holders), l)
    {
      if l.key !in holders { return; }
      var h := holders[l.key];
      if l.kind.Point? {
        if h.pointCount == 0 { return; }
        h := h.(pointCount := h.pointCount - 1);
      } else {
        if h.subtreeCount == 0 { return; }
        h := h.(subtreeCount := h.subtreeCount - 1);
      }
      holders := holders[l.key := h];
      if h.pointCount == 0 && h.subtreeCount == 0 {
        holders := holders - {l.key};
      }
    }
  }
}

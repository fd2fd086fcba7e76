/** Whole runs of the path-lock manager: any number of threads take single locks or ordered
    pairs, one critical section of the manager at a time. */
module PathLockRuns {
  import opened ByteStrings
  import opened PathLocks

  type ThreadId = nat

  datatype Request =
    | AcquirePoint(path: Key)
    | AcquireSubtree(path: Key)
    | AcquirePointPair(a: Key, b: Key)
    | AcquireSubtreePair(a: Key, b: Key)

  predicate Overlap(a: Key, b: Key) {
    AncestorOrEqual(a, b) || AncestorOrEqual(b, a)
  }

  /** The locks a request takes, in the order it takes them. */
  function Plan(r: Request): (plan: seq<Lock>)
    ensures 1 <= |plan| <= 2
  {
    match r
    case AcquirePoint(p) => [Lock(Point, p)]
    case AcquireSubtree(p) => [Lock(Subtree, p)]
    case AcquirePointPair(a, b) =>
      if a == b then [Lock(Point, a)]
      else if Less(b, a) then [Lock(Point, b), Lock(Point, a)]
      else [Lock(Point, a), Lock(Point, b)]
    case AcquireSubtreePair(a, b) =>
      if Overlap(a, b) then [Lock(Subtree, if AncestorOrEqual(b, a) then b else a)]
      else if Less(b, a) then [Lock(Subtree, b), Lock(Subtree, a)]
      else [Lock(Subtree, a), Lock(Subtree, b)]
  }

  /** The paths a request asks to have to itself. */
  predicate AsksFor(r: Request, path: Key) {
    match r
    case AcquirePoint(p) => path == p
    case AcquireSubtree(p) => AncestorOrEqual(p, path)
    case AcquirePointPair(a, b) => path == a || path == b
    case AcquireSubtreePair(a, b) => AncestorOrEqual(a, path) || AncestorOrEqual(b, path)
  }

  /** The locks a request takes protect exactly the paths it asks for. */
  lemma PlanProtects(r: Request, path: Key)
    ensures (exists l :: l in Plan(r) && Covers(l, path)) <==> AsksFor(r, path)
  {
    var plan := Plan(r);
    assert plan == [plan[0]] || plan == [plan[0], plan[1]];
    assert forall l :: l in plan <==> l == plan[0] || (|plan| == 2 && l == plan[1]);
    if r.AcquireSubtreePair? && Overlap(r.a, r.b) {
      var w := plan[0].key;
      if AncestorOrEqual(r.a, path) && w == r.b {
        AncestorTransitive(r.b, r.a, path);
      }
      if AncestorOrEqual(r.b, path) && w == r.a {
        AncestorTransitive(r.a, r.b, path);
      }
    }
    assert plan[0] in plan && (|plan| == 2 ==> plan[1] in plan);
  }

  /** A request in progress: the locks it holds, oldest first, and those it still has to take. */
  datatype Thread = Thread(request: Request, held: seq<Lock>, todo: seq<Lock>)

  datatype State = State(holders: Holders, threads: map<ThreadId, Thread>)

  datatype Step = Begin(t: ThreadId, r: Request) | Acquire(t: ThreadId) | Release(t: ThreadId)

  predicate KeysNonEmpty(r: Request) {
    forall l | l in Plan(r) :: l.key != []
  }

  /** Keys are built from a mount name, which is never empty, so requests never lock the empty
      key the acquisition tests overlook. */
  lemma MountKeysNonEmpty(r: Request, mount: Bytes, rel: Bytes, mount': Bytes, rel': Bytes)
    requires mount != [] && mount' != []
    requires r in {
               AcquirePoint(LockKey(mount, rel)), AcquireSubtree(LockKey(mount, rel)),
               AcquirePointPair(LockKey(mount, rel), LockKey(mount', rel')),
               AcquireSubtreePair(LockKey(mount, rel), LockKey(mount', rel'))}
    ensures KeysNonEmpty(r)
  {
    var a, b := LockKey(mount, rel), LockKey(mount', rel');
    assert forall l | l in Plan(r) :: l.key == a || l.key == b;
  }

  ghost predicate Enabled(s: State, step: Step) {
    match step
    case Begin(t, r) => t !in s.threads && KeysNonEmpty(r)
    case Acquire(t) => t in s.threads && s.threads[t].todo != [] && Admits(s.holders, s.threads[t].todo[0])
    case Release(t) => t in s.threads && s.threads[t].todo == [] && s.threads[t].held != []
  }

  /** The combined release gives locks back last-taken first. */
  ghost function Next(s: State, step: Step): State
    requires Enabled(s, step)
  {
    match step
    case Begin(t, r) => s.(threads := s.threads[t := Thread(r, [], Plan(r))])
    case Acquire(t) =>
      var th := s.threads[t];
      State(Take(s.holders, th.todo[0]),
            s.threads[t := th.(held := th.held + [th.todo[0]], todo := th.todo[1..])])
    case Release(t) =>
      var th := s.threads[t];
      var n := |th.held| - 1;
      State(Drop(s.holders, th.held[n]),
            if n == 0 then s.threads - {t} else s.threads[t := th.(held := th.held[..n])])
  }

  ghost predicate IsRun(run: seq<State>) {
    && run != []
    && run[0] == State(map[], map[])
    && forall i {:trigger MovesAt(run, i)} | 0 <= i < |run| - 1 :: MovesAt(run, i)
  }

  ghost predicate MovesAt(run: seq<State>, i: nat)
    requires i + 1 < |run|
  {
    Moves(run[i], run[i + 1])
  }

  ghost predicate Moves(s: State, s': State) {
    exists step :: Enabled(s, step) && Next(s, step) == s'
  }

  // ----- Safety -----

  predicate WellFormed(th: Thread) {
    && (forall l | l in th.held + th.todo :: l.key != [])
    && (th.held != [] || th.todo != [])
    && (th.todo != [] ==> th.held + th.todo == Plan(th.request))
  }

  /** No two held locks conflict, whether held by one thread or by two. */
  ghost predicate Exclusive(s: State) {
    forall t, u, i, j |
      && t in s.threads && u in s.threads
      && 0 <= i < |s.threads[t].held| && 0 <= j < |s.threads[u].held| && (t, i) != (u, j) ::
      !Conflict(s.threads[t].held[i], s.threads[u].held[j])
  }

  predicate Holds(s: State, t: ThreadId, l: Lock) {
    t in s.threads && l in s.threads[t].held
  }

  /** The holder table counts exactly the locks threads hold, each once. */
  ghost predicate Accounted(s: State) {
    && (forall t, l | Holds(s, t, l) :: Held(s.holders, l))
    && (forall l | Held(s.holders, l) :: exists t :: Holds(s, t, l))
    && (forall k | k in s.holders :: s.holders[k].pointCount + s.holders[k].subtreeCount == 1)
  }

  ghost predicate Inv(s: State) {
    && (forall t | t in s.threads :: WellFormed(s.threads[t]))
    && Accounted(s)
    && Exclusive(s)
  }

  /** Every occupied key of the table stands for a lock held there. */
  lemma HolderIsALock(s: State, k: Key) returns (l: Lock)
    requires Accounted(s) && k in s.holders
    ensures l.key == k && Held(s.holders, l)
  {
    l := if s.holders[k].pointCount > 0 then Lock(Point, k) else Lock(Subtree, k);
  }

  lemma NoEmptyHolder(s: State)
    requires Accounted(s) && forall t | t in s.threads :: WellFormed(s.threads[t])
    ensures [] !in s.holders
  {
    if [] in s.holders {
      var l := HolderIsALock(s, []);
      assert false;
    }
  }

  /** The string tests let a request through exactly when no thread holds a conflicting lock. */
  lemma AdmittedIffNoConflictingHolder(s: State, request: Lock)
    requires Accounted(s) && forall t | t in s.threads :: WellFormed(s.threads[t])
    ensures Admits(s.holders, request) <==> forall t, l | Holds(s, t, l) :: !Conflict(request, l)
  {
    NoEmptyHolder(s);
    AdmitsIsConflictFree(s.holders, request);
  }

  lemma SameKeyConflicts(x: Lock, y: Lock)
    requires x.key == y.key
    ensures Conflict(x, y)
  {
    ConflictByAncestry(x, y);
  }

  /** Taking a lock whose key is free adds that lock to the table and nothing else. */
  lemma TakeAddsOne(holders: Holders, w: Lock)
    requires w.key !in holders
    ensures forall l :: Held(Take(holders, w), l) <==> Held(holders, l) || l == w
  {
  }

  lemma AcquireKeepsAccounted(s: State, t: ThreadId)
    requires Inv(s) && Enabled(s, Acquire(t))
    ensures Accounted(Next(s, Acquire(t)))
  {
    var w := s.threads[t].todo[0];
    var s' := Next(s, Acquire(t));
    AdmittedIffNoConflictingHolder(s, w);
    if w.key in s.holders {
      var l := HolderIsALock(s, w.key);
      SameKeyConflicts(w, l);
      assert false;
    }
    TakeAddsOne(s.holders, w);
    assert forall u, l :: Holds(s', u, l) <==> Holds(s, u, l) || (u == t && l == w);
    forall l | Held(s'.holders, l) ensures exists u :: Holds(s', u, l) {
      if l == w {
        assert Holds(s', t, w);
      } else {
        var u :| Holds(s, u, l);
        assert Holds(s', u, l);
      }
    }
  }

  lemma AcquireKeepsExclusive(s: State, t: ThreadId)
    requires Inv(s) && Enabled(s, Acquire(t))
    ensures Exclusive(Next(s, Acquire(t)))
  {
    var s' := Next(s, Acquire(t));
    var w := s.threads[t].todo[0];
    AdmittedIffNoConflictingHolder(s, w);
    SameKeyConflicts(w, w);
    forall a, b, i, j |
      && a in s'.threads && b in s'.threads
      && 0 <= i < |s'.threads[a].held| && 0 <= j < |s'.threads[b].held| && (a, i) != (b, j)
      ensures !Conflict(s'.threads[a].held[i], s'.threads[b].held[j])
    {
      var x, y := s'.threads[a].held[i], s'.threads[b].held[j];
      if i == |s.threads[a].held| {
        assert x == w && Holds(s, b, y);
      } else if j == |s.threads[b].held| {
        assert y == w && Holds(s, a, x);
        ConflictSymmetric(x, y);
      }
    }
  }

  /** Counting out the only lock on its key empties that key and nothing else. */
  lemma DropRemovesOne(holders: Holders, x: Lock)
    requires Held(holders, x) && holders[x.key].pointCount + holders[x.key].subtreeCount == 1
    ensures Drop(holders, x) == holders - {x.key}
    ensures forall l :: Held(Drop(holders, x), l) <==> Held(holders, l) && l.key != x.key
  {
  }

  /** What other threads hold has other keys than the lock being released. */
  lemma OthersHaveOtherKeys(s: State, t: ThreadId, u: ThreadId, j: nat)
    requires Exclusive(s) && t in s.threads && s.threads[t].held != []
    requires u in s.threads && j < |s.threads[u].held| && (t, |s.threads[t].held| - 1) != (u, j)
    ensures s.threads[u].held[j].key != s.threads[t].held[|s.threads[t].held| - 1].key
  {
    var x, l := s.threads[t].held[|s.threads[t].held| - 1], s.threads[u].held[j];
    assert !Conflict(x, l);
    if l.key == x.key { SameKeyConflicts(x, l); }
  }

  lemma OtherKeysOf(s: State, t: ThreadId, u: ThreadId)
    requires Exclusive(s) && t in s.threads && s.threads[t].held != [] && u in s.threads
    ensures var n := |s.threads[t].held| - 1;
            forall j | 0 <= j < |s.threads[u].held| && (u != t || j < n) ::
              s.threads[u].held[j].key != s.threads[t].held[n].key
  {
    forall j | 0 <= j < |s.threads[u].held| && (u != t || j < |s.threads[t].held| - 1)
      ensures s.threads[u].held[j].key != s.threads[t].held[|s.threads[t].held| - 1].key
    {
      OthersHaveOtherKeys(s, t, u, j);
    }
  }

  lemma WithoutLast(held: seq<Lock>, l: Lock)
    requires held != [] && forall j | 0 <= j < |held| - 1 :: held[j].key != held[|held| - 1].key
    ensures l in held[..|held| - 1] <==> l in held && l.key != held[|held| - 1].key
  {
    assert held == held[..|held| - 1] + [held[|held| - 1]];
  }

  /** Releasing takes away exactly the lock on the released key. */
  lemma HoldsAfterRelease(s: State, t: ThreadId, u: ThreadId, l: Lock)
    requires Exclusive(s) && Enabled(s, Release(t))
    ensures var released := s.threads[t].held[|s.threads[t].held| - 1].key;
            Holds(Next(s, Release(t)), u, l) <==> Holds(s, u, l) && l.key != released
  {
    if u in s.threads {
      OtherKeysOf(s, t, u);
      if u == t {
        WithoutLast(s.threads[t].held, l);
      }
    }
  }

  lemma ReleaseKeepsAccounted(s: State, t: ThreadId)
    requires Inv(s) && Enabled(s, Release(t))
    ensures Accounted(Next(s, Release(t)))
  {
    var x := s.threads[t].held[|s.threads[t].held| - 1];
    var s' := Next(s, Release(t));
    assert Holds(s, t, x);
    DropRemovesOne(s.holders, x);
    forall u, l ensures Holds(s', u, l) <==> Holds(s, u, l) && l.key != x.key {
      HoldsAfterRelease(s, t, u, l);
    }
    forall l | Held(s'.holders, l) ensures exists u :: Holds(s', u, l) {
      var u :| Holds(s, u, l);
      assert Holds(s', u, l);
    }
  }

  lemma ReleaseKeepsInv(s: State, t: ThreadId)
    requires Inv(s) && Enabled(s, Release(t))
    ensures Inv(Next(s, Release(t)))
  {
    ReleaseKeepsAccounted(s, t);
    var s' := Next(s, Release(t));
    assert forall u | u in s'.threads :: s'.threads[u].held <= s.threads[u].held;
  }

  lemma BeginKeepsInv(s: State, t: ThreadId, r: Request)
    requires Inv(s) && Enabled(s, Begin(t, r))
    ensures Inv(Next(s, Begin(t, r)))
  {
    var s' := Next(s, Begin(t, r));
    assert [] + Plan(r) == Plan(r);
    assert forall u, l :: Holds(s', u, l) <==> Holds(s, u, l);
  }

  lemma StepKeepsInv(s: State, step: Step)
    requires Inv(s) && Enabled(s, step)
    ensures Inv(Next(s, step))
  {
    match step
    case Begin(t, r) => BeginKeepsInv(s, t, r);
    case Acquire(t) =>
      AcquireKeepsAccounted(s, t);
      AcquireKeepsExclusive(s, t);
      var th := s.threads[t];
      assert th.held + [th.todo[0]] + th.todo[1..] == th.held + th.todo;
    case Release(t) => ReleaseKeepsInv(s, t);
  }

  /** Main safety result: in every state of every run, locks held by threads never overlap,
      and the manager's table is exactly the locks held. */
  lemma {:induction false} RunsAreExclusive(run: seq<State>, i: nat)
    requires IsRun(run) && i < |run|
    ensures Inv(run[i])
  {
    if i > 0 {
      RunsAreExclusive(run, i - 1);
      assert MovesAt(run, i - 1);
      var step :| Enabled(run[i - 1], step) && Next(run[i - 1], step) == run[i];
      StepKeepsInv(run[i - 1], step);
    }
  }

  /** When every thread is done nothing is left locked. */
  lemma QuiescentManagerIsEmpty(run: seq<State>, i: nat)
    requires IsRun(run) && i < |run| && run[i].threads == map[]
    ensures run[i].holders == map[]
  {
    RunsAreExclusive(run, i);
    forall k | k in run[i].holders ensures false {
      var l := HolderIsALock(run[i], k);
    }
  }

  /** The single wider lock taken for an overlapping pair excludes whatever either path's own
      subtree lock would. */
  lemma WiderLockCoversBoth(a: Key, b: Key, other: Lock)
    requires Overlap(a, b)
    ensures |Plan(AcquireSubtreePair(a, b))| == 1
    ensures Conflict(Plan(AcquireSubtreePair(a, b))[0], other) <==>
            Conflict(Lock(Subtree, a), other) || Conflict(Lock(Subtree, b), other)
  {
    var w := Plan(AcquireSubtreePair(a, b))[0];
    forall x | x in {a, b} && Conflict(Lock(Subtree, x), other) ensures Conflict(w, other) {
      var path :| Covers(Lock(Subtree, x), path) && Covers(other, path);
      AncestorTransitive(w.key, x, path);
      assert Covers(w, path);
    }
  }

  // ----- Deadlock -----

  ghost predicate WaitsFor(s: State, t: ThreadId, u: ThreadId) {
    && t in s.threads && s.threads[t].todo != []
    && exists l :: Holds(s, u, l) && Conflict(s.threads[t].todo[0], l)
  }

  /** A set of threads none of which can ever move: each waits for a lock a member holds.
      Every wait cycle, of any length, is such a set. */
  ghost predicate Deadlocked(s: State, d: set<ThreadId>) {
    d != {} && forall t {:trigger WaitsIn(s, d, t)} | t in d :: WaitsIn(s, d, t)
  }

  ghost predicate WaitsIn(s: State, d: set<ThreadId>, t: ThreadId) {
    exists u :: u in d && WaitsFor(s, t, u)
  }

  /** The one dangerous shape: a subtree pair whose second key extends the first by a byte
      below '/', so that the first key's subtree does not lie entirely before the second key. */
  predicate Hazard(r: Request) {
    && r.AcquireSubtreePair?
    && |Plan(r)| == 2
    && var first, second := Plan(r)[0].key, Plan(r)[1].key;
       first <= second && second[|first|] < SLASH
  }

  /** Keys whose bytes all sort at or above '/' never form a hazard. */
  lemma HighBytesAreSafe(r: Request)
    requires forall l, b | l in Plan(r) && b in l.key :: b >= SLASH
    ensures !Hazard(r)
  {
    if |Plan(r)| == 2 {
      var second := Plan(r)[1];
      assert second in Plan(r);
      assert forall i | 0 <= i < |second.key| :: second.key[i] in second.key;
    }
  }

  /** A pair's locks are taken in ascending key order. */
  lemma PairIsOrdered(r: Request)
    requires |Plan(r)| == 2
    ensures Less(Plan(r)[0].key, Plan(r)[1].key)
  {
    match r
    case AcquirePoint(_) =>
    case AcquireSubtree(_) =>
    case AcquirePointPair(a, b) => LessTotal(a, b);
    case AcquireSubtreePair(a, b) => LessTotal(a, b);
  }

  /** If the first key's subtree does not reach past the second key, all of it sorts before
      all of the second key's subtree. */
  lemma SubtreeBeforeSubtree(f: Key, g: Key, x: Key, y: Key)
    requires Less(f, g) && !AncestorOrEqual(f, g)
    requires f <= g ==> g[|f|] >= SLASH
    requires AncestorOrEqual(f, x) && AncestorOrEqual(g, y)
    ensures Less(x, y)
  {
    var n := CommonLength(f, g);
    assert x[..|f|] == f && y[..|g|] == g;
    assert y[..n] == g[..n] == f[..n] == x[..n];
    if n == |f| {
      assert f <= g;
      assert g[..n + 1] == f + [g[n]];
      assert |x| > n ==> x[n] == SLASH;
    }
    LessAt(x, y, n);
  }

  /** In a pair that is no hazard, everything under the first lock sorts before everything
      under the second. */
  lemma FirstBeforeSecond(r: Request, x: Key, y: Key)
    requires !Hazard(r) && |Plan(r)| == 2
    requires Covers(Plan(r)[0], x) && Covers(Plan(r)[1], y)
    ensures Less(x, y)
  {
    PairIsOrdered(r);
    if r.AcquireSubtreePair? {
      SubtreeBeforeSubtree(Plan(r)[0].key, Plan(r)[1].key, x, y);
    }
  }

  /** A path through which `t` is blocked by a member of `d`. */
  ghost predicate BlockedAt(s: State, d: set<ThreadId>, t: ThreadId, path: Key) {
    && t in s.threads && s.threads[t].todo != []
    && Covers(s.threads[t].todo[0], path)
    && exists u, l :: u in d && Holds(s, u, l) && Covers(l, path)
  }

  /** In a deadlocked set every member is blocked somewhere. */
  lemma MemberIsBlocked(s: State, d: set<ThreadId>, t: ThreadId)
    requires Deadlocked(s, d) && t in d
    ensures exists path :: BlockedAt(s, d, t, path)
  {
    assert WaitsIn(s, d, t);
    var u :| u in d && WaitsFor(s, t, u);
    var l :| Holds(s, u, l) && Conflict(s.threads[t].todo[0], l);
    var path :| Covers(s.threads[t].todo[0], path) && Covers(l, path);
    assert BlockedAt(s, d, t, path);
  }

  ghost function BlockingPath(s: State, d: set<ThreadId>, t: ThreadId): (path: Key)
    requires Deadlocked(s, d) && t in d
    ensures BlockedAt(s, d, t, path)
  {
    MemberIsBlocked(s, d, t);
    var path :| BlockedAt(s, d, t, path);
    path
  }

  /** Whoever blocks `t` at some path is itself blocked, and only at later paths. */
  lemma BlockedFurther(s: State, d: set<ThreadId>, t: ThreadId) returns (u: ThreadId)
    requires Inv(s) && Deadlocked(s, d) && t in d
    requires forall v | v in d && v in s.threads :: !Hazard(s.threads[v].request)
    ensures u in d && Less(BlockingPath(s, d, t), BlockingPath(s, d, u))
  {
    var path := BlockingPath(s, d, t);
    var l: Lock;
    u, l :| u in d && Holds(s, u, l) && Covers(l, path);
    var path' := BlockingPath(s, d, u);
    HoldsFirstOfTwo(s, u, l);
    FirstBeforeSecond(s.threads[u].request, path, path');
  }

  /** A thread that holds a lock and has another to take has a plan of just these two. */
  lemma HoldsFirstOfTwo(s: State, u: ThreadId, l: Lock)
    requires Inv(s) && Holds(s, u, l) && s.threads[u].todo != []
    ensures var th := s.threads[u];
            Plan(th.request) == [l, th.todo[0]]
  {
    var th := s.threads[u];
    assert Plan(th.request) == th.held + th.todo;
  }

  /** Some member of a finite set is blocked at a path no other member is blocked beyond. */
  lemma {:induction false} LatestBlocked(s: State, d: set<ThreadId>, among: set<ThreadId>) returns (t: ThreadId)
    requires Deadlocked(s, d) && among <= d && among != {}
    ensures t in among
    ensures forall u | u in among :: !Less(BlockingPath(s, d, t), BlockingPath(s, d, u))
    decreases |among|
  {
    t :| t in among;
    LessIrreflexive(BlockingPath(s, d, t));
    if among != {t} {
      var u := LatestBlocked(s, d, among - {t});
      var p, q := BlockingPath(s, d, t), BlockingPath(s, d, u);
      if Less(p, q) {
        LessAsymmetric(p, q);
        t := u;
      } else {
        forall v | v in among ensures !Less(p, BlockingPath(s, d, v)) {
          var r := BlockingPath(s, d, v);
          if v != t && Less(p, r) {
            LessTotal(p, q);
            if q != p { LessTransitive(q, p, r); }
            assert false;
          }
        }
      }
    }
  }

  /** Main liveness result: threads none of whose requests is a hazard can never block each
      other for good, in any state of any run. */
  lemma NoDeadlock(run: seq<State>, i: nat, d: set<ThreadId>)
    requires IsRun(run) && i < |run|
    requires forall t | t in d && t in run[i].threads :: !Hazard(run[i].threads[t].request)
    ensures !Deadlocked(run[i], d)
  {
    RunsAreExclusive(run, i);
    if Deadlocked(run[i], d) {
      var t := LatestBlocked(run[i], d, d);
      var u := BlockedFurther(run[i], d, t);
      assert false;
    }
  }

  /** A thread that can neither take nor give back a lock waits for another thread. */
  lemma ImmobileThreadWaits(s: State, t: ThreadId)
    requires Inv(s) && t in s.threads
    requires !Enabled(s, Acquire(t)) && !Enabled(s, Release(t))
    ensures WaitsIn(s, s.threads.Keys, t)
  {
    var w := s.threads[t].todo[0];
    AdmittedIffNoConflictingHolder(s, w);
    var u, l :| Holds(s, u, l) && Conflict(w, l);
    assert WaitsFor(s, t, u);
  }

  /** A thread takes the locks of its request one by one, and has all of them at the end. */
  lemma AcquireTakesThePlan(s: State, t: ThreadId)
    requires Inv(s) && Enabled(s, Acquire(t))
    ensures var th := Next(s, Acquire(t)).threads[t];
            && th.request == s.threads[t].request
            && th.held + th.todo == Plan(th.request)
            && |th.held| == |s.threads[t].held| + 1
  {
    var th, th' := s.threads[t], Next(s, Acquire(t)).threads[t];
    assert th'.held + th'.todo == th.held + th.todo;
  }

  /** In every run, no path is asked for by two threads that have all their locks. */
  lemma RequestsAreExclusive(run: seq<State>, i: nat, t: ThreadId, u: ThreadId, path: Key)
    requires IsRun(run) && i < |run| && t != u && t in run[i].threads && u in run[i].threads
    requires run[i].threads[t].held == Plan(run[i].threads[t].request)
    requires run[i].threads[u].held == Plan(run[i].threads[u].request)
    ensures !(AsksFor(run[i].threads[t].request, path) && AsksFor(run[i].threads[u].request, path))
  {
    var a, b := run[i].threads[t], run[i].threads[u];
    RunsAreExclusive(run, i);
    PlanProtects(a.request, path);
    PlanProtects(b.request, path);
  }

  /** So while any request is in progress, some thread can take or give back a lock. */
  lemma SomeThreadCanMove(run: seq<State>, i: nat) returns (t: ThreadId)
    requires IsRun(run) && i < |run| && run[i].threads != map[]
    requires forall u | u in run[i].threads :: !Hazard(run[i].threads[u].request)
    ensures Enabled(run[i], Acquire(t)) || Enabled(run[i], Release(t))
  {
    var d := run[i].threads.Keys;
    NoDeadlock(run, i, d);
    assert d != {} by { var u :| u in run[i].threads; assert u in d; }
    t :| t in d && !WaitsIn(run[i], d, t);
    RunsAreExclusive(run, i);
    if !Enabled(run[i], Acquire(t)) && !Enabled(run[i], Release(t)) {
      ImmobileThreadWaits(run[i], t);
    }
  }

  /** A request with which the manager can get stuck although every other request is safe. */
  ghost predicate CanDeadlock(r: Request) {
    exists run, d :: StuckRun(r, run, d)
  }

  ghost predicate StuckRun(r: Request, run: seq<State>, d: set<ThreadId>) {
    && IsRun(run)
    && var s := run[|run| - 1];
       && Deadlocked(s, d)
       && forall t | t in d && t in s.threads :: s.threads[t].request == r || !Hazard(s.threads[t].request)
  }

  /** The partner that gets a hazard stuck: it locks the hazard's second key and then a path
      inside the hazard's first subtree. */
  function Partner(r: Request): Request
    requires Hazard(r)
  {
    AcquireSubtreePair(Plan(r)[1].key, Plan(r)[0].key + [SLASH, 120])
  }

  lemma PartnerPlan(r: Request)
    requires Hazard(r)
    ensures var f, g := Plan(r)[0].key, Plan(r)[1].key;
            && Plan(r) == [Lock(Subtree, f), Lock(Subtree, g)]
            && Plan(Partner(r)) == [Lock(Subtree, g), Lock(Subtree, f + [SLASH, 120])]
            && !Conflict(Lock(Subtree, f), Lock(Subtree, g))
            && !Conflict(Lock(Subtree, g), Lock(Subtree, f))
            && Conflict(Lock(Subtree, f + [SLASH, 120]), Lock(Subtree, f))
            && Conflict(Lock(Subtree, g), Lock(Subtree, g))
            && !Hazard(Partner(r))
  {
    var f, g := Plan(r)[0].key, Plan(r)[1].key;
    var h := f + [SLASH, 120];
    assert g[..|f|] == f == h[..|f|] && g[|f|] < h[|f|];
    LessAt(g, h, |f|);
    LessAsymmetric(g, h);
    ConflictByAncestry(Lock(Subtree, f), Lock(Subtree, g));
    ConflictSymmetric(Lock(Subtree, f), Lock(Subtree, g));
    SameKeyConflicts(Lock(Subtree, g), Lock(Subtree, g));
    assert f + [SLASH] <= h;
    ConflictByAncestry(Lock(Subtree, h), Lock(Subtree, f));
  }

  /** The state in which the hazard holds its first lock and the partner its own. */
  function StuckState(r: Request): State
    requires Hazard(r)
  {
    var f, g := Plan(r)[0], Plan(r)[1];
    State(map[f.key := LockState(0, 1), g.key := LockState(0, 1)],
          map[0 := Thread(r, [f], [g]), 1 := Thread(Partner(r), [g], [Lock(Subtree, f.key + [SLASH, 120])])])
  }

  lemma StuckStateIsDeadlocked(r: Request)
    requires Hazard(r)
    ensures Deadlocked(StuckState(r), {0, 1})
  {
    PartnerPlan(r);
    var s := StuckState(r);
    assert Holds(s, 0, Plan(r)[0]) && Holds(s, 1, Plan(r)[1]);
    assert WaitsFor(s, 0, 1) && WaitsFor(s, 1, 0);
    assert WaitsIn(s, {0, 1}, 0) && WaitsIn(s, {0, 1}, 1);
  }

  ghost predicate Reachable(s: State) {
    exists run :: IsRun(run) && run[|run| - 1] == s
  }

  lemma StepReaches(s: State, step: Step)
    requires Reachable(s) && Enabled(s, step)
    ensures Reachable(Next(s, step))
  {
    var run :| IsRun(run) && run[|run| - 1] == s;
    var run' := run + [Next(s, step)];
    assert Moves(s, Next(s, step));
    forall i | 0 <= i < |run'| - 1 ensures MovesAt(run', i) {
      if i < |run| - 1 { assert MovesAt(run, i); }
    }
    assert IsRun(run');
  }

  /** A subtree lock on an unheld key is granted when nothing held conflicts with it. */
  lemma AcquireReaches(s: State, t: ThreadId, l: Lock, rest: seq<Lock>)
    requires Reachable(s) && t in s.threads && s.threads[t].todo == [l] + rest
    requires l.kind.Subtree? && l.key !in s.holders
    requires forall m | Held(s.holders, m) :: !Conflict(l, m)
    ensures Reachable(State(s.holders[l.key := LockState(0, 1)],
                            s.threads[t := Thread(s.threads[t].request, s.threads[t].held + [l], rest)]))
  {
    assert ([l] + rest)[1..] == rest;
    StepReaches(s, Acquire(t));
  }

  lemma BothBegin(r: Request, q: Request)
    requires KeysNonEmpty(r) && KeysNonEmpty(q)
    ensures Reachable(State(map[], map[0 := Thread(r, [], Plan(r)), 1 := Thread(q, [], Plan(q))]))
  {
    var s0 := State(map[], map[]);
    assert Reachable(s0) by { assert IsRun([s0]); }
    StepReaches(s0, Begin(0, r));
    StepReaches(Next(s0, Begin(0, r)), Begin(1, q));
  }

  lemma OnlyLockHeld(l: Lock, m: Lock)
    requires l.kind.Subtree? && Held(map[l.key := LockState(0, 1)], m)
    ensures m == l
  {
  }

  lemma FirstOfTwoAcquires(r: Request, q: Request, f: Lock, g: Lock)
    requires KeysNonEmpty(r) && KeysNonEmpty(q) && Plan(r) == [f, g] && f.kind.Subtree?
    ensures Reachable(State(map[f.key := LockState(0, 1)],
                            map[0 := Thread(r, [f], [g]), 1 := Thread(q, [], Plan(q))]))
  {
    BothBegin(r, q);
    var s := State(map[], map[0 := Thread(r, [], Plan(r)), 1 := Thread(q, [], Plan(q))]);
    AcquireReaches(s, 0, f, [g]);
    assert [] + [f] == [f];
    assert s.threads[0 := Thread(r, [f], [g])] == map[0 := Thread(r, [f], [g]), 1 := Thread(q, [], Plan(q))];
    assert s.holders[f.key := LockState(0, 1)] == map[f.key := LockState(0, 1)];
  }

  /** Each of two crossing requests gets its first lock. */
  lemma BothHoldTheirFirst(r: Request, q: Request, f: Lock, g: Lock, h: Lock)
    requires KeysNonEmpty(r) && KeysNonEmpty(q) && Plan(r) == [f, g] && Plan(q) == [g, h]
    requires f.kind.Subtree? && g.kind.Subtree? && f.key != g.key && !Conflict(g, f)
    ensures Reachable(State(map[f.key := LockState(0, 1), g.key := LockState(0, 1)],
                            map[0 := Thread(r, [f], [g]), 1 := Thread(q, [g], [h])]))
  {
    FirstOfTwoAcquires(r, q, f, g);
    var s := State(map[f.key := LockState(0, 1)], map[0 := Thread(r, [f], [g]), 1 := Thread(q, [], Plan(q))]);
    forall m | Held(s.holders, m) ensures !Conflict(g, m) { OnlyLockHeld(f, m); }
    AcquireReaches(s, 1, g, [h]);
    assert [] + [g] == [g];
    assert s.threads[1 := Thread(q, [g], [h])] == map[0 := Thread(r, [f], [g]), 1 := Thread(q, [g], [h])];
  }

  lemma StuckStateIsReached(r: Request)
    requires Hazard(r) && KeysNonEmpty(r)
    ensures Reachable(StuckState(r))
  {
    PartnerPlan(r);
    var f, g := Plan(r)[0], Plan(r)[1];
    assert f in Plan(r) && g in Plan(r);
    BothHoldTheirFirst(r, Partner(r), f, g, Lock(Subtree, f.key + [SLASH, 120]));
  }

  /** Exactly the hazards can deadlock: the byte order used for pairs is safe for a request
      if and only if its second key does not extend its first by a byte below '/'. */
  lemma DeadlockIffHazard(r: Request)
    requires KeysNonEmpty(r)
    ensures CanDeadlock(r) <==> Hazard(r)
  {
    if Hazard(r) {
      HazardGetsStuck(r);
    } else if CanDeadlock(r) {
      var run, d :| StuckRun(r, run, d);
      NoDeadlock(run, |run| - 1, d);
      assert false;
    }
  }

  lemma HazardGetsStuck(r: Request)
    requires KeysNonEmpty(r) && Hazard(r)
    ensures CanDeadlock(r)
  {
    StuckStateIsReached(r);
    StuckStateIsDeadlocked(r);
    PartnerPlan(r);
    var run :| IsRun(run) && run[|run| - 1] == StuckState(r);
    assert StuckRun(r, run, {0, 1});
  }
}

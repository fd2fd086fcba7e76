/** The reference-counted set of per-upload locks. A lock object is created when the first
    thread registers for an upload id and deleted from the map when the last one leaves, so the
    same id is guarded by many lock objects over time. */
module UploadLocks {
  import opened ByteStrings
  import opened Sequences

  type Key = Bytes
  type LockId = nat
  type ThreadId = nat

  /** A registered thread waits for the lock's mutex, holds it, or has unlocked it without
      having given its reference back yet. */
  datatype Phase = Waiting | Inside | Leaving

  datatype Thread = Thread(phase: Phase, key: Key, lock: LockId)

  /** Lock objects below `nextLock` have been allocated; `owner` says who holds which mutex;
      `threads` lists the threads between their registration and the end of their release. */
  datatype State = State(
    locks: map<Key, LockId>, refs: map<LockId, int>, owner: map<LockId, ThreadId>,
    nextLock: LockId, threads: map<ThreadId, Thread>)

  const START := State(map[], map[], map[], 0, map[])

  /** The atomic sections of acquire and release. */
  datatype Step =
    | Register(thread: ThreadId, key: Key)
    | Lock(thread: ThreadId)
    | Unlock(thread: ThreadId)
    | Leave(thread: ThreadId)

  predicate Blank(key: Key) {
    forall i | 0 <= i < |key| :: Space(key[i])
  }

  predicate Enabled(s: State, step: Step) {
    var t := step.thread;
    if step.Register? then t !in s.threads
    else
      && t in s.threads
      && match step
         case Lock(_) => s.threads[t].phase.Waiting? && s.threads[t].lock !in s.owner
         case Unlock(_) => s.threads[t].phase.Inside?
         case Leave(_) => s.threads[t].phase.Leaving?
  }

  /** A blank upload id is not locked at all. */
  function Next(s: State, step: Step): State
    requires Enabled(s, step)
  {
    var t := step.thread;
    match step
    case Register(_, key) =>
      if Blank(key) then s
      else
        var lock := if key in s.locks then s.locks[key] else s.nextLock;
        var refs := if key in s.locks && lock in s.refs then s.refs[lock] else 0;
        State(s.locks[key := lock], s.refs[lock := refs + 1], s.owner,
              if key in s.locks then s.nextLock else s.nextLock + 1,
              s.threads[t := Thread(Waiting, key, lock)])
    case Lock(_) =>
      s.(owner := s.owner[s.threads[t].lock := t], threads := s.threads[t := s.threads[t].(phase := Inside)])
    case Unlock(_) =>
      s.(owner := s.owner - {s.threads[t].lock}, threads := s.threads[t := s.threads[t].(phase := Leaving)])
    case Leave(_) =>
      var th := s.threads[t];
      var refs := (if th.lock in s.refs then s.refs[th.lock] else 0) - 1;
      State(if refs == 0 then s.locks - {th.key} else s.locks, s.refs[th.lock := refs], s.owner, s.nextLock,
            s.threads - {t})
  }

  /** The threads registered with a lock object. */
  function Users(s: State, lock: LockId): set<ThreadId> {
    set t | t in s.threads && s.threads[t].lock == lock
  }

  /** A registered thread's lock is the one in the map. */
  ghost predicate Registered(s: State) {
    forall t | t in s.threads :: s.threads[t].key in s.locks && s.locks[s.threads[t].key] == s.threads[t].lock
  }

  /** A mapped lock has as many references as registered threads, and at least one. */
  ghost predicate Counted(s: State) {
    forall k | k in s.locks ::
      && s.locks[k] < s.nextLock && s.locks[k] in s.refs
      && s.refs[s.locks[k]] == |Users(s, s.locks[k])| > 0
  }

  ghost predicate Distinct(s: State) {
    forall k, m | k in s.locks && m in s.locks && s.locks[k] == s.locks[m] :: k == m
  }

  /** A mutex is held exactly by the thread that is inside with it. */
  ghost predicate Owned(s: State) {
    && (forall t | t in s.threads && s.threads[t].phase.Inside? ::
          s.threads[t].lock in s.owner && s.owner[s.threads[t].lock] == t)
    && (forall l | l in s.owner ::
          s.owner[l] in s.threads && s.threads[s.owner[l]] == Thread(Inside, s.threads[s.owner[l]].key, l))
  }

  ghost predicate Inv(s: State) {
    Registered(s) && Counted(s) && Distinct(s) && Owned(s)
  }

  lemma UsersAfterRegister(s: State, step: Step, lock: LockId)
    requires Enabled(s, step) && step.Register? && !Blank(step.key)
    ensures var n := Next(s, step);
            Users(n, lock) == Users(s, lock) + (if lock == n.locks[step.key] then {step.thread} else {})
  {
  }

  lemma RegisterKeepsCounted(s: State, step: Step)
    requires Inv(s) && Enabled(s, step) && step.Register? && !Blank(step.key)
    ensures Counted(Next(s, step))
  {
    var n := Next(s, step);
    forall k | k in n.locks
      ensures n.locks[k] < n.nextLock && n.locks[k] in n.refs && n.refs[n.locks[k]] == |Users(n, n.locks[k])| > 0
    {
      UsersAfterRegister(s, step, n.locks[k]);
      if k !in s.locks {
        assert Users(s, s.nextLock) == {};
      } else {
        assert s.refs[s.locks[k]] == |Users(s, s.locks[k])|;
      }
    }
  }

  lemma RegisterKeepsRest(s: State, step: Step)
    requires Inv(s) && Enabled(s, step) && step.Register? && !Blank(step.key)
    ensures Registered(Next(s, step)) && Distinct(Next(s, step)) && Owned(Next(s, step))
  {
  }

  /** Taking or releasing a mutex changes neither the map nor who is registered for what. */
  lemma MutexStepKeepsMap(s: State, step: Step)
    requires Inv(s) && Enabled(s, step) && (step.Lock? || step.Unlock?)
    ensures Registered(Next(s, step)) && Counted(Next(s, step)) && Distinct(Next(s, step))
  {
    var n := Next(s, step);
    assert n.threads.Keys == s.threads.Keys;
    assert forall t | t in s.threads :: n.threads[t].lock == s.threads[t].lock && n.threads[t].key == s.threads[t].key;
    forall k | k in n.locks ensures Users(n, n.locks[k]) == Users(s, s.locks[k]) {
    }
  }

  lemma MutexStepKeepsOwned(s: State, step: Step)
    requires Inv(s) && Enabled(s, step) && (step.Lock? || step.Unlock?)
    ensures Owned(Next(s, step))
  {
  }

  lemma UsersAfterLeave(s: State, step: Step, lock: LockId)
    requires Enabled(s, step) && step.Leave?
    ensures Users(Next(s, step), lock) == Users(s, lock) - {step.thread}
    ensures step.thread in Users(s, lock) <==> s.threads[step.thread].lock == lock
  {
  }

  /** The leaving thread's own key: gone with its last user, one reference fewer otherwise. */
  lemma LeaveCountsOwnKey(s: State, step: Step)
    requires Inv(s) && Enabled(s, step) && step.Leave?
    ensures var n, k := Next(s, step), s.threads[step.thread].key;
            k in n.locks ==>
              n.locks[k] < n.nextLock && n.locks[k] in n.refs && n.refs[n.locks[k]] == |Users(n, n.locks[k])| > 0
  {
    UsersAfterLeave(s, step, s.threads[step.thread].lock);
  }

  lemma LeaveCountsOtherKey(s: State, step: Step, k: Key)
    requires Inv(s) && Enabled(s, step) && step.Leave?
    requires k in s.locks && k != s.threads[step.thread].key
    ensures var n := Next(s, step);
            && k in n.locks && n.locks[k] == s.locks[k]
            && n.locks[k] < n.nextLock && n.locks[k] in n.refs && n.refs[n.locks[k]] == |Users(n, n.locks[k])| > 0
  {
    assert s.locks[k] != s.threads[step.thread].lock;
    UsersAfterLeave(s, step, s.locks[k]);
    assert Users(s, s.locks[k]) - {step.thread} == Users(s, s.locks[k]);
  }

  lemma LeaveKeepsCounted(s: State, step: Step)
    requires Inv(s) && Enabled(s, step) && step.Leave?
    ensures Counted(Next(s, step))
  {
    var n := Next(s, step);
    forall k | k in n.locks
      ensures n.locks[k] < n.nextLock && n.locks[k] in n.refs && n.refs[n.locks[k]] == |Users(n, n.locks[k])| > 0
    {
      if k == s.threads[step.thread].key {
        LeaveCountsOwnKey(s, step);
      } else {
        LeaveCountsOtherKey(s, step, k);
      }
    }
  }

  lemma LeaveKeepsRest(s: State, step: Step)
    requires Inv(s) && Enabled(s, step) && step.Leave?
    ensures Registered(Next(s, step)) && Distinct(Next(s, step)) && Owned(Next(s, step))
  {
    var n, t := Next(s, step), step.thread;
    var th := s.threads[t];
    var users := Users(s, th.lock);
    assert t in users && s.refs[th.lock] == |users|;
    forall u | u in n.threads ensures n.threads[u].key in n.locks {
      if s.threads[u].key == th.key {
        assert {t, u} <= users;
        assert |{t, u}| <= |users| by { SubsetSize({t, u}, users); }
      }
    }
  }

  lemma StepKeepsInv(s: State, step: Step)
    requires Inv(s) && Enabled(s, step)
    ensures Inv(Next(s, step))
  {
    match step
    case Register(_, key) =>
      if !Blank(key) {
        RegisterKeepsCounted(s, step);
        RegisterKeepsRest(s, step);
      }
    case Leave(_) =>
      LeaveKeepsCounted(s, step);
      LeaveKeepsRest(s, step);
    case _ =>
      MutexStepKeepsMap(s, step);
      MutexStepKeepsOwned(s, step);
  }

  /** A run from the start: every step enabled where it is taken. */
  ghost predicate Run(states: seq<State>, steps: seq<Step>) {
    && |states| == |steps| + 1 && states[0] == START
    && forall i | 0 <= i < |steps| :: Enabled(states[i], steps[i]) && states[i + 1] == Next(states[i], steps[i])
  }

  lemma {:induction false} RunKeepsInv(states: seq<State>, steps: seq<Step>, i: nat)
    requires Run(states, steps) && i < |states|
    ensures Inv(states[i])
  {
    if i > 0 {
      RunKeepsInv(states, steps, i - 1);
      StepKeepsInv(states[i - 1], steps[i - 1]);
    }
  }

  /** In every interleaving at most one thread is inside per upload id, although the lock
      object of an id changes over time. */
  lemma AtMostOneInside(states: seq<State>, steps: seq<Step>, i: nat, t: ThreadId, u: ThreadId)
    requires Run(states, steps) && i < |states| && t in states[i].threads && u in states[i].threads
    requires states[i].threads[t].phase.Inside? && states[i].threads[u].phase.Inside?
    requires states[i].threads[t].key == states[i].threads[u].key
    ensures t == u
  {
    RunKeepsInv(states, steps, i);
  }

  /** The count on a registered thread's lock is the number of threads registered for its id. */
  lemma RefsCountThreads(states: seq<State>, steps: seq<Step>, i: nat, t: ThreadId)
    requires Run(states, steps) && i < |states| && t in states[i].threads
    ensures var s := states[i];
            var th := s.threads[t];
            && th.key in s.locks && s.locks[th.key] == th.lock && th.lock in s.refs
            && s.refs[th.lock] == |set u | u in s.threads && s.threads[u].key == th.key|
  {
    RunKeepsInv(states, steps, i);
    var s := states[i];
    var th := s.threads[t];
    assert Users(s, th.lock) == set u | u in s.threads && s.threads[u].key == th.key;
  }

  /** Nothing is left behind: the map holds exactly the ids of registered threads. */
  lemma MapHoldsLiveIds(states: seq<State>, steps: seq<Step>, i: nat)
    requires Run(states, steps) && i < |states|
    ensures states[i].locks.Keys == set t | t in states[i].threads :: states[i].threads[t].key
  {
    RunKeepsInv(states, steps, i);
    var s := states[i];
    forall k | k in s.locks ensures exists t | t in s.threads :: s.threads[t].key == k {
      var t :| t in Users(s, s.locks[k]);
      assert s.threads[t].key == k;
    }
  }

  /** While threads are registered, one of them can take a step. */
  lemma SomeThreadCanMove(states: seq<State>, steps: seq<Step>, i: nat)
    requires Run(states, steps) && i < |states| && states[i].threads != map[]
    ensures exists step: Step | !step.Register? :: Enabled(states[i], step)
  {
    RunKeepsInv(states, steps, i);
    var s := states[i];
    var t :| t in s.threads;
    match s.threads[t].phase
    case Waiting =>
      var lock := s.threads[t].lock;
      if lock in s.owner {
        assert Enabled(s, Unlock(s.owner[lock]));
      } else {
        assert Enabled(s, Lock(t));
      }
    case Inside => assert Enabled(s, Unlock(t));
    case Leaving => assert Enabled(s, Leave(t));
  }

  // ----- What a thread gets -----

  /** Ids that trim to nothing are the blank ones. */
  lemma BlankIffTrimsToNothing(key: Key)
    ensures Blank(key) <==> TrimSpace(key) == []
  {
    var drop := (b: Byte) => Space(b);
    var before, behind := TrimStrips(key, drop);
    var t := TrimSpace(key);
    assert key == before + t + behind;
    if t != [] {
      assert key[|before|] == t[0];
    }
  }

  /** A thread with a blank id is not registered and holds nothing; any other is registered for
      exactly its id and waits. */
  lemma RegisterJoins(states: seq<State>, steps: seq<Step>, t: ThreadId, key: Key)
    requires Run(states, steps) && t !in states[|states| - 1].threads
    ensures var s := states[|states| - 1];
            && Enabled(s, Register(t, key))
            && var n := Next(s, Register(t, key));
            if TrimSpace(key) == [] then n == s
            else && t in n.threads && n.threads[t].phase.Waiting? && n.threads[t].key == key
                 && n.threads - {t} == s.threads
                 && n.owner == s.owner && n.locks.Keys == s.locks.Keys + {key}
  {
    BlankIffTrimsToNothing(key);
  }

  /** A waiting thread can enter exactly when no thread is inside for its id. */
  lemma CanEnterIff(states: seq<State>, steps: seq<Step>, i: nat, t: ThreadId)
    requires Run(states, steps) && i < |states| && t in states[i].threads && states[i].threads[t].phase.Waiting?
    ensures var s := states[i];
            Enabled(s, Lock(t)) <==>
            !exists u | u in s.threads :: s.threads[u].phase.Inside? && s.threads[u].key == s.threads[t].key
  {
    RunKeepsInv(states, steps, i);
    var s := states[i];
    var lock := s.threads[t].lock;
    if lock in s.owner {
      var u := s.owner[lock];
      assert s.locks[s.threads[u].key] == lock == s.locks[s.threads[t].key];
      assert s.threads[u].phase.Inside? && s.threads[u].key == s.threads[t].key;
    }
  }

  /** Entering, leaving the critical section and giving the reference back, one after the other. */
  lemma MutexSteps(states: seq<State>, steps: seq<Step>, i: nat, t: ThreadId)
    requires Run(states, steps) && i < |states| && t in states[i].threads
    ensures var s := states[i];
            && (Enabled(s, Lock(t)) ==>
                  Next(s, Lock(t)).threads == s.threads[t := s.threads[t].(phase := Inside)])
            && (s.threads[t].phase.Inside? ==>
                  && Enabled(s, Unlock(t))
                  && Next(s, Unlock(t)).threads == s.threads[t := s.threads[t].(phase := Leaving)])
            && (s.threads[t].phase.Leaving? ==>
                  Enabled(s, Leave(t)) && Next(s, Leave(t)).threads == s.threads - {t})
  {
  }
}

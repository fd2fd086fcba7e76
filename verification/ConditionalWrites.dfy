/** Conditional puts and deletes on one S3 key, in every interleaving of their steps. The parent
    directory stays fixed, so every operation on the key takes the same point lock. An operation
    first changes the file and then the index, and can fail in between. */
module ConditionalWrites {
  import opened ByteStrings
  import opened IfMatch
  import opened Wrappers

  type ThreadId = nat
  type Id = nat
  type Digest = Bytes -> Bytes

  /** The index entry: the digest kept for the object, and the composite ETag of a multipart
      upload, which is the effective one when set. */
  datatype Row = Row(id: Id, md5: Bytes, multipartETag: Bytes)

  function EffectiveETag(row: Row): Bytes {
    if row.multipartETag != [] then row.multipartETag else row.md5
  }

  /** The key: its index entry and the content on disk. */
  datatype Stored = Stored(row: Option<Row>, file: Option<Bytes>)

  /** A put stores content; a delete names the object it looked up before. */
  datatype Request =
    | Put(ifNoneMatchAny: bool, ifMatch: Bytes, content: Bytes)
    | Delete(id: Id, ifMatch: Bytes)

  function Content(r: Request): Option<Bytes> {
    if r.Put? then Some(r.content) else None
  }

  /** How far an operation got: not to the file; to the file but not to the index; to an index
      entry without ETag, as re-indexing changed bytes leaves it; or to the end. */
  datatype Outcome = Nothing | Placed | Cleared | Committed

  /** Waiting for the lock; holding it; holding it with the checks passed; done but not released. */
  datatype Phase = Waiting | Locked | Passed | Finished

  datatype Thread = Thread(request: Request, phase: Phase)

  /** A failure that came after the file was changed. */
  datatype Late = Late(content: Option<Bytes>, cleared: bool)

  /** One committed operation, the key before and after it, and the late failures between the
      commit before and this one. */
  datatype Commit = Commit(request: Request, before: Stored, after: Stored, late: seq<Late>)

  datatype State = State(
    stored: Stored, holder: Option<ThreadId>, threads: map<ThreadId, Thread>,
    nextId: Id, late: seq<Late>, log: seq<Commit>)

  datatype Step =
    | Arrive(thread: ThreadId, request: Request)
    | Lock(thread: ThreadId)
    | Check(thread: ThreadId)
    | Write(thread: ThreadId, outcome: Outcome)
    | Release(thread: ThreadId)

  /** The decision taken inside the critical section. */
  predicate Permits(row: Option<Row>, r: Request) {
    match r
    case Put(ifNoneMatchAny, ifMatch, _) =>
      && !(row.Some? && ifNoneMatchAny)
      && (ifMatch != [] ==> row.Some? && Satisfied(ifMatch, EffectiveETag(row.value)))
    case Delete(id, ifMatch) =>
      && row.Some? && row.value.id == id
      && (ifMatch != [] ==> Satisfied(ifMatch, EffectiveETag(row.value)))
  }

  /** A create refuses to replace a file, and only a put re-indexes. */
  predicate CanReach(stored: Stored, r: Request, outcome: Outcome) {
    outcome.Nothing? || (if r.Put? then stored.row.Some? || stored.file.None? else !outcome.Cleared?)
  }

  predicate Enabled(s: State, step: Step) {
    var t := step.thread;
    if step.Arrive? then t !in s.threads
    else
      && t in s.threads
      && match step
         case Lock(_) => s.threads[t].phase.Waiting? && s.holder.None?
         case Check(_) => s.threads[t].phase.Locked?
         case Write(_, outcome) => s.threads[t].phase.Passed? && CanReach(s.stored, s.threads[t].request, outcome)
         case Release(_) => s.threads[t].phase.Finished?
  }

  function At(s: State, t: ThreadId, phase: Phase): map<ThreadId, Thread>
    requires t in s.threads
  {
    s.threads[t := s.threads[t].(phase := phase)]
  }

  /** The key after the operation: an overwrite keeps the id, a create takes a fresh one. */
  function Effect(stored: Stored, r: Request, outcome: Outcome, fresh': Id, digest: Digest): Stored {
    var id := if stored.row.Some? then stored.row.value.id else fresh';
    match outcome
    case Nothing => stored
    case Placed => stored.(file := Content(r))
    case Cleared => Stored(Some(Row(id, [], [])), Content(r))
    case Committed =>
      if r.Put? then Stored(Some(Row(id, digest(r.content), [])), Some(r.content)) else Stored(None, None)
  }

  function Next(s: State, step: Step, digest: Digest): State
    requires Enabled(s, step)
  {
    var t := step.thread;
    match step
    case Arrive(_, r) => s.(threads := s.threads[t := Thread(r, Waiting)])
    case Lock(_) => s.(holder := Some(t), threads := At(s, t, Locked))
    case Check(_) => s.(threads := At(s, t, if Permits(s.stored.row, s.threads[t].request) then Passed else Finished))
    case Write(_, outcome) => AfterWrite(s, t, outcome, digest)
    case Release(_) => s.(holder := None, threads := s.threads - {t})
  }

  function AfterWrite(s: State, t: ThreadId, outcome: Outcome, digest: Digest): State
    requires t in s.threads
  {
    var r := s.threads[t].request;
    var after := Effect(s.stored, r, outcome, s.nextId, digest);
    var late :=
      if outcome.Nothing? then s.late
      else if outcome.Committed? then []
      else s.late + [Late(Content(r), outcome.Cleared?)];
    State(after, s.holder, At(s, t, Finished), s.nextId + 1, late,
          if outcome.Committed? then s.log + [Commit(r, s.stored, after, s.late)] else s.log)
  }

  // ----- Exclusion -----

  /** Exactly the holder is inside, and what it checked still holds. */
  ghost predicate Inv(s: State) {
    && (forall t | t in s.threads && !s.threads[t].phase.Waiting? :: s.holder == Some(t))
    && (s.holder.Some? ==> s.holder.value in s.threads && !s.threads[s.holder.value].phase.Waiting?)
    && (forall t | t in s.threads && s.threads[t].phase.Passed? :: Permits(s.stored.row, s.threads[t].request))
  }

  lemma StepKeepsInv(s: State, step: Step, digest: Digest)
    requires Inv(s) && Enabled(s, step)
    ensures Inv(Next(s, step, digest))
  {
  }

  // ----- The key as its history explains it -----

  predicate AnyCleared(late: seq<Late>) {
    exists l | l in late :: l.cleared
  }

  /** What late failures make of the key a commit has left: the last one's content, and the
      ETag kept unless one of them cleared it. */
  ghost predicate Explains(left: Stored, late: seq<Late>, stored: Stored) {
    && stored.file == (if late == [] then left.file else late[|late| - 1].content)
    && (if AnyCleared(late) then stored.row.Some? && EffectiveETag(stored.row.value) == [] else stored.row == left.row)
  }

  lemma LateExplains(
    left: Stored, late: seq<Late>, stored: Stored, r: Request, outcome: Outcome, id: Id, digest: Digest)
    requires Explains(left, late, stored) && (outcome.Placed? || outcome.Cleared?)
    ensures Explains(left, late + [Late(Content(r), outcome.Cleared?)], Effect(stored, r, outcome, id, digest))
  {
    var l := Late(Content(r), outcome.Cleared?);
    assert forall m | m in late + [l] :: m in late || m == l;
    assert l in late + [l];
    if AnyCleared(late) {
      var m :| m in late && m.cleared;
      assert m in late + [l];
    }
  }

  /** What the first `n` commits left. */
  function Left(first: Stored, log: seq<Commit>, n: nat): Stored
    requires n <= |log|
  {
    if n == 0 then first else log[n - 1].after
  }

  /** A commit was permitted where it started, and left what its request asks for. */
  ghost predicate Proper(c: Commit, digest: Digest) {
    && Permits(c.before.row, c.request)
    && (if c.request.Put?
        then c.after.row.Some? && c.after.file == Some(c.request.content)
             && EffectiveETag(c.after.row.value) == digest(c.request.content)
        else c.after == Stored(None, None))
  }

  /** Commit `i` starts from what the one before left and the late failures since. */
  ghost predicate Follows(first: Stored, log: seq<Commit>, i: int, digest: Digest) {
    0 <= i < |log| ==> Explains(Left(first, log, i), log[i].late, log[i].before) && Proper(log[i], digest)
  }

  /** The log read as a history of the key, which also explains the present. */
  ghost predicate History(first: Stored, log: seq<Commit>, late: seq<Late>, stored: Stored, digest: Digest) {
    && Explains(Left(first, log, |log|), late, stored)
    && forall i :: Follows(first, log, i, digest)
  }

  lemma FollowsStill(first: Stored, log: seq<Commit>, c: Commit, i: int, digest: Digest)
    requires 0 <= i < |log| && Follows(first, log, i, digest)
    ensures Follows(first, log + [c], i, digest)
  {
    assert (log + [c])[i] == log[i];
    assert Left(first, log + [c], i) == Left(first, log, i);
  }

  lemma LastFollows(first: Stored, log: seq<Commit>, c: Commit, digest: Digest)
    requires Explains(Left(first, log, |log|), c.late, c.before) && Proper(c, digest)
    ensures Follows(first, log + [c], |log|, digest)
    ensures Explains(Left(first, log + [c], |log| + 1), [], c.after)
  {
    assert (log + [c])[|log|] == c;
    assert Left(first, log + [c], |log|) == Left(first, log, |log|);
  }

  lemma HistoryGrows(first: Stored, log: seq<Commit>, stored: Stored, c: Commit, digest: Digest)
    requires History(first, log, c.late, stored, digest) && c.before == stored && Proper(c, digest)
    ensures History(first, log + [c], [], c.after, digest)
  {
    LastFollows(first, log, c, digest);
    forall i ensures Follows(first, log + [c], i, digest) {
      if 0 <= i < |log| {
        FollowsStill(first, log, c, i, digest);
      }
    }
  }

  lemma WriteKeepsHistory(s: State, step: Step, first: Stored, digest: Digest)
    requires Inv(s) && Enabled(s, step) && step.Write? && History(first, s.log, s.late, s.stored, digest)
    ensures var n := Next(s, step, digest);
            History(first, n.log, n.late, n.stored, digest)
  {
    var r := s.threads[step.thread].request;
    match step.outcome
    case Nothing =>
    case Committed =>
      var after := Effect(s.stored, r, Committed, s.nextId, digest);
      HistoryGrows(first, s.log, s.stored, Commit(r, s.stored, after, s.late), digest);
    case _ =>
      LateExplains(Left(first, s.log, |s.log|), s.late, s.stored, r, step.outcome, s.nextId, digest);
  }

  ghost predicate Run(states: seq<State>, steps: seq<Step>, digest: Digest) {
    && |states| == |steps| + 1
    && states[0].holder.None? && states[0].threads == map[] && states[0].late == [] && states[0].log == []
    && forall i | 0 <= i < |steps| ::
         Enabled(states[i], steps[i]) && states[i + 1] == Next(states[i], steps[i], digest)
  }

  /** In every interleaving, with failures at any point, the commits form one history: each was
      permitted in the key its predecessor and the late failures since had left. */
  lemma {:induction false} RunIsHistory(states: seq<State>, steps: seq<Step>, digest: Digest, i: nat)
    requires Run(states, steps, digest) && i < |states|
    ensures Inv(states[i])
    ensures History(states[0].stored, states[i].log, states[i].late, states[i].stored, digest)
  {
    if i > 0 {
      RunIsHistory(states, steps, digest, i - 1);
      StepKeepsInv(states[i - 1], steps[i - 1], digest);
      if steps[i - 1].Write? {
        WriteKeepsHistory(states[i - 1], steps[i - 1], states[0].stored, digest);
      }
    }
  }

  /** In particular, without late failures a commit starts from exactly what its predecessor left. */
  lemma UntroubledCommit(states: seq<State>, steps: seq<Step>, digest: Digest, i: nat, c: nat)
    requires Run(states, steps, digest) && i < |states| && c < |states[i].log| && states[i].log[c].late == []
    ensures states[i].log[c].before == Left(states[0].stored, states[i].log, c)
  {
    RunIsHistory(states, steps, digest, i);
    assert Follows(states[0].stored, states[i].log, c, digest);
  }

  // ----- What a condition saw -----

  /** A committed put leaves the content it was given, and an ETag that is its digest. */
  lemma CommittedPut(states: seq<State>, steps: seq<Step>, digest: Digest, i: nat, c: nat)
    requires Run(states, steps, digest) && i < |states| && c < |states[i].log| && states[i].log[c].request.Put?
    ensures var after := states[i].log[c].after;
            && after.row.Some? && after.file == Some(states[i].log[c].request.content)
            && EffectiveETag(after.row.value) == digest(states[i].log[c].request.content)
  {
    RunIsHistory(states, steps, digest, i);
    assert Follows(states[0].stored, states[i].log, c, digest);
  }

  /** In every interleaving, a committed If-Match operation matched the ETag its immediate
      predecessor left, or no ETag at all where a late failure has cleared it since. */
  lemma IfMatchSawPredecessor(states: seq<State>, steps: seq<Step>, digest: Digest, i: nat, c: nat)
    requires Run(states, steps, digest) && i < |states| && c < |states[i].log|
    requires states[i].log[c].request.ifMatch != []
    ensures var left, commit := Left(states[0].stored, states[i].log, c), states[i].log[c];
            if AnyCleared(commit.late) then Satisfied(commit.request.ifMatch, [])
            else left.row.Some? && Satisfied(commit.request.ifMatch, EffectiveETag(left.row.value))
  {
    RunIsHistory(states, steps, digest, i);
    assert Follows(states[0].stored, states[i].log, c, digest);
  }

  /** Between a committed put and a later If-None-Match creator the object was deleted, late
      failures or not, so at most one creator succeeds per absence. */
  lemma OneCreatorPerAbsence(states: seq<State>, steps: seq<Step>, digest: Digest, i: nat, c: nat, e: nat)
    requires Run(states, steps, digest) && i < |states| && c < e < |states[i].log|
    requires var log := states[i].log;
             log[c].request.Put? && log[e].request.Put? && log[e].request.ifNoneMatchAny
    ensures exists k | c < k < e :: states[i].log[k].request.Delete?
  {
    RunIsHistory(states, steps, digest, i);
    var first, log := states[0].stored, states[i].log;
    assert Follows(first, log, e, digest) && Follows(first, log, e - 1, digest);
    assert log[e - 1].request.Delete?;
  }

  lemma HeaderNotEmpty(tag: Bytes)
    requires Opaque(tag)
    ensures Header([ETag(false, tag)], false) != []
  {
    var tags := [ETag(false, tag)];
    assert Parts(tags, false) == [Written(tags[0], false)];
  }

  /** Of puts that compare against the same ETag, one that directly follows another commits only
      if the first one's content has that very ETag. */
  lemma SwapsDoNotBothWin(states: seq<State>, steps: seq<Step>, digest: Digest, i: nat, c: nat, tag: Bytes)
    requires Run(states, steps, digest) && i < |states| && c + 1 < |states[i].log| && Opaque(tag)
    requires states[i].log[c].request.Put? && Opaque(digest(states[i].log[c].request.content))
    ensures digest(states[i].log[c].request.content) != tag ==>
              states[i].log[c + 1].request.ifMatch != Header([ETag(false, tag)], false)
  {
    var tags := [ETag(false, tag)];
    CommittedPut(states, steps, digest, i, c);
    HeaderNotEmpty(tag);
    if states[i].log[c + 1].request.ifMatch == Header(tags, false) {
      IfMatchSawPredecessor(states, steps, digest, i, c + 1);
      ListMatchesStrongMembers(tags, false, digest(states[i].log[c].request.content));
      ListMatchesStrongMembers(tags, false, []);
    }
  }

  // ----- Whether the ETag belongs to the content -----

  /** The key shows nothing and has nothing, or shows the digest of what it has. */
  predicate Agrees(stored: Stored, digest: Digest) {
    if stored.row.None? then stored.file.None?
    else stored.file.Some? && EffectiveETag(stored.row.value) == digest(stored.file.value)
  }

  /** Late failures that leave the ETag right: none cleared it, and the last one's content has
      the very digest the last commit left. */
  predicate Harmless(left: Stored, late: seq<Late>, digest: Digest) {
    late == [] ||
    (&& left.row.Some? && !AnyCleared(late)
     && late[|late| - 1].content.Some? && digest(late[|late| - 1].content.value) == EffectiveETag(left.row.value))
  }

  lemma {:induction false} LeftAgrees(first: Stored, log: seq<Commit>, n: nat, digest: Digest)
    requires n <= |log| && Agrees(first, digest) && forall i :: Follows(first, log, i, digest)
    ensures Agrees(Left(first, log, n), digest)
  {
    if n > 0 {
      assert Follows(first, log, n - 1, digest);
    }
  }

  /** After a late failure something is left of the key: the content, or the entry of a delete. */
  ghost predicate Troubled(s: State) {
    s.late != [] ==> s.stored.row.Some? || s.stored.file.Some?
  }

  lemma {:induction false} RunStaysTroubled(states: seq<State>, steps: seq<Step>, digest: Digest, i: nat)
    requires Run(states, steps, digest) && i < |states|
    ensures Troubled(states[i])
  {
    if i > 0 {
      RunStaysTroubled(states, steps, digest, i - 1);
      RunIsHistory(states, steps, digest, i - 1);
    }
  }

  /** In every run the ETag shown is the digest of the stored content if and only if no operation
      has failed late since the last commit, or the failures since happen to be harmless. */
  lemma ETagIsDigestIff(states: seq<State>, steps: seq<Step>, digest: Digest, i: nat)
    requires Run(states, steps, digest) && i < |states| && Agrees(states[0].stored, digest)
    requires forall content :: digest(content) != []
    ensures var s := states[i];
            Agrees(s.stored, digest) <==> Harmless(Left(states[0].stored, s.log, |s.log|), s.late, digest)
  {
    RunIsHistory(states, steps, digest, i);
    RunStaysTroubled(states, steps, digest, i);
    LeftAgrees(states[0].stored, states[i].log, |states[i].log|, digest);
  }

  // ----- A lost update -----

  lemma Extend(states: seq<State>, steps: seq<Step>, step: Step, digest: Digest)
    returns (states': seq<State>, steps': seq<Step>)
    requires Run(states, steps, digest) && Enabled(states[|states| - 1], step)
    ensures Run(states', steps', digest) && states' == states + [Next(states[|states| - 1], step, digest)]
    ensures steps' == steps + [step]
  {
    states', steps' := states + [Next(states[|states| - 1], step, digest)], steps + [step];
    forall i | 0 <= i < |steps'|
      ensures Enabled(states'[i], steps'[i]) && states'[i + 1] == Next(states'[i], steps'[i], digest)
    {
      assert i < |steps| ==> states'[i] == states[i] && states'[i + 1] == states[i + 1] && steps'[i] == steps[i];
    }
  }

  /** One operation from arrival to release, with the given outcome. */
  lemma Operate(states: seq<State>, steps: seq<Step>, t: ThreadId, r: Request, outcome: Outcome, digest: Digest)
    returns (states': seq<State>, steps': seq<Step>)
    requires Run(states, steps, digest)
    requires var s := states[|states| - 1];
             s.holder.None? && t !in s.threads && Permits(s.stored.row, r) && CanReach(s.stored, r, outcome)
    ensures Run(states', steps', digest) && states < states'
    ensures var s, n := states[|states| - 1], states'[|states'| - 1];
            && n.stored == Effect(s.stored, r, outcome, s.nextId, digest)
            && n.holder.None? && n.threads == s.threads
            && n.log == if outcome.Committed? then s.log + [Commit(r, s.stored, n.stored, s.late)] else s.log
  {
    var s := states[|states| - 1];
    states', steps' := Extend(states, steps, Arrive(t, r), digest);
    states', steps' := Extend(states', steps', Lock(t), digest);
    states', steps' := Extend(states', steps', Check(t), digest);
    states', steps' := Extend(states', steps', Write(t, outcome), digest);
    states', steps' := Extend(states', steps', Release(t), digest);
    assert states'[|states'| - 1].threads == s.threads;
  }

  /** Two puts compare against the same ETag. The first puts its content in place and then fails;
      the second still finds that ETag, and commits over content it was never shown. */
  lemma LostUpdate(id: Id, was: Bytes, a: Bytes, b: Bytes, digest: Digest)
    returns (states: seq<State>, steps: seq<Step>, mid: nat)
    requires Opaque(digest(was))
    ensures Run(states, steps, digest) && mid < |states|
    ensures states[0].stored == Stored(Some(Row(id, digest(was), [])), Some(was))
    ensures states[mid].stored == Stored(Some(Row(id, digest(was), [])), Some(a)) && states[mid].log == []
    ensures var header, n := Header([ETag(false, digest(was))], false), states[|states| - 1];
            && |n.log| == 1 && n.log[0].request == Put(false, header, b)
            && n.stored == Stored(Some(Row(id, digest(b), [])), Some(b))
  {
    var tags := [ETag(false, digest(was))];
    var header := Header(tags, false);
    ListMatchesStrongMembers(tags, false, digest(was));
    var start := Stored(Some(Row(id, digest(was), [])), Some(was));
    states, steps := [State(start, None, map[], id + 1, [], [])], [];
    states, steps := Operate(states, steps, 0, Put(false, header, a), Placed, digest);
    mid := |states| - 1;
    states, steps := Operate(states, steps, 1, Put(false, header, b), Committed, digest);
  }

  // ----- What is permitted, and what it achieves -----

  /** The ETag of an object: the composite one of a multipart upload, or else the digest kept. */
  ghost predicate ShowsETag(row: Row, tag: Bytes) {
    (row.multipartETag == tag && tag != []) || (row.multipartETag == [] && row.md5 == tag)
  }

  /** Every decision: a put without conditions is permitted, one that must create exactly when
      there is no object, one with a list of ETags exactly when there is one whose ETag is a
      strong member, one with a star when its ETag is known; a delete also needs the object it
      looked up. */
  lemma PermittedIff(row: Option<Row>, id: Id, create: bool, tags: seq<ETag>, spaced: bool, content: Bytes, tag: Bytes)
    requires tags != [] && forall e | e in tags :: Opaque(e.tag)
    requires row.Some? ==> ShowsETag(row.value, tag) && (tag == [] || Opaque(tag))
    ensures Permits(row, Put(create, [], content)) <==> !create || row.None?
    ensures Permits(row, Put(create, Header(tags, spaced), content)) <==>
            !create && row.Some? && ETag(false, tag) in tags
    ensures Permits(row, Put(create, [STAR], content)) <==> !create && row.Some? && tag != []
    ensures Permits(row, Delete(id, [])) <==> row.Some? && row.value.id == id
    ensures Permits(row, Delete(id, Header(tags, spaced))) <==>
            row.Some? && row.value.id == id && ETag(false, tag) in tags
    ensures Permits(row, Delete(id, [STAR])) <==> row.Some? && row.value.id == id && tag != []
  {
    ListHeaderNotEmpty(tags, spaced);
    StarTrims();
    if row.Some? {
      ListMatchesStrongMembers(tags, spaced, tag);
    }
  }

  lemma StarTrims()
    ensures TrimSpace([STAR]) == [STAR]
  {
    TrimKeeps([STAR], (b: Byte) => Space(b));
  }

  lemma ListHeaderNotEmpty(tags: seq<ETag>, spaced: bool)
    requires tags != []
    ensures Header(tags, spaced) != []
  {
    assert Parts(tags, spaced)[0] == Written(tags[0], false);
  }

  /** A permitted operation can commit, and then has its full effect, unless it is a put that
      would create over a file the index does not know; such a file is never touched. */
  lemma CommitsUnlessUntracked(states: seq<State>, steps: seq<Step>, t: ThreadId, r: Request, digest: Digest)
    returns (states': seq<State>, steps': seq<Step>)
    requires Run(states, steps, digest)
    requires var s := states[|states| - 1]; s.holder.None? && t !in s.threads && Permits(s.stored.row, r)
    ensures Run(states', steps', digest) && states < states'
    ensures var s, n := states[|states| - 1], states'[|states'| - 1];
            if r.Put? && s.stored.row.None? && s.stored.file.Some?
            then n.stored == s.stored && forall outcome :: CanReach(s.stored, r, outcome) <==> outcome == Nothing
            else && n.stored.file == Content(r) && (n.stored.row.Some? <==> r.Put?)
                 && (r.Put? ==> ShowsETag(n.stored.row.value, digest(r.content)))
                 && |n.log| == |s.log| + 1
  {
    var s := states[|states| - 1];
    var outcome := if r.Put? && s.stored.row.None? && s.stored.file.Some? then Nothing else Committed;
    states', steps' := Operate(states, steps, t, r, outcome, digest);
  }

  // ----- Object ids -----

  /** Ids in use are below the next one to be handed out. */
  ghost predicate IdsBelow(s: State) {
    && (s.stored.row.Some? ==> s.stored.row.value.id < s.nextId)
    && forall c | c in s.log && c.after.row.Some? :: c.after.row.value.id < s.nextId
  }

  /** An overwrite keeps the object's id, and a create takes one no earlier commit had. */
  ghost predicate IdsProper(log: seq<Commit>) {
    && (forall c | c in log && c.request.Put? && c.before.row.Some? && c.after.row.Some? ::
          c.after.row.value.id == c.before.row.value.id)
    && (forall i, j | 0 <= i < j < |log| && log[j].before.row.None?
          && log[i].after.row.Some? && log[j].after.row.Some? ::
          log[i].after.row.value.id < log[j].after.row.value.id)
  }

  lemma WriteKeepsIds(s: State, step: Step, digest: Digest)
    requires Enabled(s, step) && step.Write? && IdsBelow(s) && IdsProper(s.log)
    ensures IdsBelow(Next(s, step, digest)) && IdsProper(Next(s, step, digest).log)
  {
  }

  lemma {:induction false} RunKeepsIds(states: seq<State>, steps: seq<Step>, digest: Digest, i: nat)
    requires Run(states, steps, digest) && i < |states| && IdsBelow(states[0])
    ensures IdsBelow(states[i]) && IdsProper(states[i].log)
  {
    if i > 0 {
      RunKeepsIds(states, steps, digest, i - 1);
      if steps[i - 1].Write? {
        WriteKeepsIds(states[i - 1], steps[i - 1], digest);
      }
    }
  }
}

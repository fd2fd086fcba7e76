/** The life of one S3 multipart upload: create, upload-part, complete, abort, server crash,
    startup recovery and the retention sweep, one durable write at a time.  Handlers of the
    upload run one at a time (they hold its upload lock); the sweep takes no lock. */
module Multipart {
  import opened ByteStrings
  import opened PartLists
  import opened Wrappers

  type Digest = Bytes

  /** The numbers an upload-part request may carry; others are refused. */
  type PartNumber = n: int | 1 <= n <= MAX_PART_COUNT witness 1

  /** A composite ETag, represented by the part digests it is computed from. */
  type ETag = seq<Digest>

  datatype Phase = InProgress | Committing | Done | Aborted

  /** The active-upload row; times are unix milliseconds, 0 when unset. */
  datatype Row = Row(phase: Phase, composite: ETag, initiated: int, completedAt: int)

  /** The durable uploadId record. */
  datatype Record = Record(etag: ETag, completedAt: int)

  /** One commit batch: the parts the client listed, the ETag recorded and the parts installed
      as the object's content. */
  datatype Commit = Commit(listed: seq<Listed>, etag: ETag, body: seq<Bytes>)

  /** The handler holding the upload lock, by how far it has come. */
  datatype Handler =
    | Idle
    | Started
    | NoRecord
    | Marking(upload: Row)
    | Assembling(upload: Row)
    | Assembled(upload: Row, commit: Commit)
    | Tagged(upload: Row, commit: Commit)
    | Installed(upload: Row, commit: Commit)
    | Finishing(upload: Row, etag: ETag)
    | Replying(etag: ETag)
    | PartPublished(number: PartNumber, digest: Digest, size: nat)

  datatype Action = Keep | RetireDone | RetireAborted | ForceAbort

  /** The sweep, by what it has still to delete. */
  datatype Sweep = Resting | DeletingRecord | DeletingRow

  datatype State = State(
    up: bool,
    created: bool,
    row: Option<Row>,
    parts: map<int, Part>,
    files: map<int, Bytes>,
    record: Option<Record>,
    handler: Handler,
    sweep: Sweep,
    commits: seq<Commit>,
    replies: seq<ETag>)

  datatype Retention = Retention(done: int, aborted: int, stuck: int)

  /** The retention policy for one row. */
  function DecideRetention(row: Row, now: int, cfg: Retention): Action {
    match row.phase
    case Done => if row.completedAt > 0 && now - row.completedAt >= cfg.done then RetireDone else Keep
    case Aborted =>
      var ts := if row.completedAt == 0 then row.initiated else row.completedAt;
      if ts > 0 && now - ts >= cfg.aborted then RetireAborted else Keep
    case InProgress => if row.initiated > 0 && now - row.initiated >= cfg.stuck then ForceAbort else Keep
    case Committing => Keep
  }

  datatype Step =
    | Create(initiated: int)
    | PublishPart(number: PartNumber, blob: Bytes)
    | RecordPart
    | BeginComplete
    | LookupRecord
    | LookupRow
    | MarkCommitting
    | Assemble(listed: seq<Listed>)
    | StoreTag
    | Install
    | CommitBatch(now: int)
    | MarkDone(now: int, written: bool)
    | Reply
    | Abort
    | Fail
    | Crash
    | Recover(now: int)
    | BeginSweep(now: int, cfg: Retention)
    | SweepRecord
    | SweepRow
    | SweepStops

  const START := State(true, false, None, map[], map[], None, Idle, Resting, [], [])

  predicate Enabled(s: State, step: Step) {
    match step
    case Create(_) => s.up && !s.created
    case PublishPart(_, _) => s.up && s.handler.Idle? && s.row.Some? && s.row.value.phase.InProgress?
    case RecordPart => s.handler.PartPublished?
    case BeginComplete => s.up && s.handler.Idle?
    case LookupRecord => s.handler.Started?
    case LookupRow => s.handler.NoRecord?
    case MarkCommitting => s.handler.Marking?
    case Assemble(listed) => s.handler.Assembling? && Completable(s, listed)
    case StoreTag => s.handler.Assembled?
    case Install => s.handler.Tagged?
    case CommitBatch(_) => s.handler.Installed?
    case MarkDone(_, _) => s.handler.Finishing?
    case Reply => s.handler.Replying?
    case Abort => s.up && s.handler.Idle?
    case Fail => !s.handler.Idle?
    case Crash => s.up
    case Recover(_) => !s.up
    case BeginSweep(now, cfg) =>
      s.up && s.sweep.Resting? && s.row.Some? && DecideRetention(s.row.value, now, cfg) != Keep
    case SweepRecord => s.sweep.DeletingRecord?
    case SweepRow => s.sweep.DeletingRow?
    case SweepStops => !s.sweep.Resting?
  }

  /** A list the Complete handler goes on with: not empty, accepted, and every file there. */
  predicate Completable(s: State, listed: seq<Listed>) {
    && listed != [] && Accepted(listed, s.parts)
    && forall i | 0 <= i < |listed| :: listed[i].number in s.files
  }

  /** What is read for the listed parts, in the order of the list. */
  function Read<V>(listed: seq<Listed>, m: map<int, V>): (r: seq<V>)
    requires forall i | 0 <= i < |listed| :: listed[i].number in m
    ensures |r| == |listed| && forall i | 0 <= i < |listed| :: r[i] == m[listed[i].number]
  {
    seq(|listed|, i requires 0 <= i < |listed| => m[listed[i].number])
  }

  function Tags(parts: seq<Part>): (r: ETag)
    ensures |r| == |parts| && forall i | 0 <= i < |parts| :: r[i] == parts[i].etag
  {
    seq(|parts|, i requires 0 <= i < |parts| => parts[i].etag)
  }

  /** The digest of a part is `md5` of its bytes. A failed write of the done row is only logged,
      and a sweep stops at its first error. */
  function Next(s: State, step: Step, md5: Bytes -> Digest): State
    requires Enabled(s, step)
  {
    match step
    case Create(initiated) => s.(created := true, row := Some(Row(InProgress, [], initiated, 0)))
    case PublishPart(n, blob) => s.(files := s.files[n := blob], handler := PartPublished(n, md5(blob), |blob|))
    case RecordPart =>
      s.(parts := s.parts[s.handler.number := Part(s.handler.digest, s.handler.size)], handler := Idle)
    case BeginComplete => s.(handler := Started)
    case LookupRecord =>
      if s.record.Some? then s.(handler := Idle, replies := s.replies + [s.record.value.etag])
      else s.(handler := NoRecord)
    case LookupRow =>
      if s.row.None? || s.row.value.phase.Done? || s.row.value.phase.Aborted? then s.(handler := Idle)
      else s.(handler := Marking(s.row.value))
    case MarkCommitting =>
      if s.handler.upload.phase.InProgress? then
        var upload := s.handler.upload.(phase := Committing);
        s.(row := Some(upload), handler := Assembling(upload))
      else s.(handler := Assembling(s.handler.upload))
    case Assemble(listed) =>
      var commit := Commit(listed, Tags(Read(listed, s.parts)), Read(listed, s.files));
      s.(handler := Assembled(s.handler.upload, commit))
    case StoreTag =>
      var Assembled(upload, commit) := s.handler;
      var upload' := upload.(composite := commit.etag);
      s.(row := Some(upload'), handler := Tagged(upload', commit))
    case Install =>
      var Tagged(upload, commit) := s.handler;
      s.(handler := if s.record.Some? then Finishing(upload, commit.etag) else Installed(upload, commit))
    case CommitBatch(now) =>
      var Installed(upload, commit) := s.handler;
      s.(record := Some(Record(commit.etag, now)), commits := s.commits + [commit],
         handler := Finishing(upload, commit.etag))
    case MarkDone(now, written) =>
      var Finishing(upload, etag) := s.handler;
      s.(row := if written then Some(upload.(phase := Done, completedAt := now)) else s.row, handler := Replying(etag))
    case Reply => s.(files := map[], replies := s.replies + [s.handler.etag], handler := Idle)
    case Abort => if s.row.None? then s else s.(row := None, parts := map[], files := map[])
    case Fail => s.(handler := Idle)
    case Crash => s.(up := false, handler := Idle, sweep := Resting)
    case Recover(now) =>
      if s.row.Some? && s.row.value.phase.Committing? && s.record.Some? then
        var row, record := s.row.value, s.record.value;
        s.(up := true, row := Some(Row(Done, if row.composite == [] then record.etag else row.composite, row.initiated,
                                       if row.completedAt != 0 then row.completedAt
                                       else if record.completedAt != 0 then record.completedAt else now)))
      else s.(up := true)
    case BeginSweep(now, cfg) =>
      s.(sweep := if DecideRetention(s.row.value, now, cfg).RetireAborted? then DeletingRow else DeletingRecord)
    case SweepRecord => s.(record := None, sweep := DeletingRow)
    case SweepRow => s.(row := None, parts := map[], files := map[], sweep := Resting)
    case SweepStops => s.(sweep := Resting)
  }

  // ----- Runs -----

  predicate Runs(s: State, steps: seq<Step>, md5: Bytes -> Digest)
    decreases |steps|
  {
    steps == [] || (Enabled(s, steps[0]) && Runs(Next(s, steps[0], md5), steps[1..], md5))
  }

  function After(s: State, steps: seq<Step>, md5: Bytes -> Digest): State
    requires Runs(s, steps, md5)
    decreases |steps|
  {
    if steps == [] then s else After(Next(s, steps[0], md5), steps[1..], md5)
  }

  lemma {:induction false} RunOn(s: State, steps: seq<Step>, step: Step, md5: Bytes -> Digest)
    requires Runs(s, steps, md5) && Enabled(After(s, steps, md5), step)
    ensures Runs(s, steps + [step], md5)
    ensures After(s, steps + [step], md5) == Next(After(s, steps, md5), step, md5)
    decreases |steps|
  {
    if steps == [] {
      assert [step][1..] == [];
    } else {
      RunOn(Next(s, steps[0], md5), steps[1..], step, md5);
      assert (steps + [step])[1..] == steps[1..] + [step];
    }
  }

  lemma {:induction false} RunThrough(s: State, steps: seq<Step>, more: seq<Step>, md5: Bytes -> Digest)
    requires Runs(s, steps, md5) && Runs(After(s, steps, md5), more, md5)
    ensures Runs(s, steps + more, md5)
    ensures After(s, steps + more, md5) == After(After(s, steps, md5), more, md5)
    decreases |steps|
  {
    if steps == [] {
      assert steps + more == more;
    } else {
      RunThrough(Next(s, steps[0], md5), steps[1..], more, md5);
      assert (steps + more)[1..] == steps[1..] + more;
    }
  }

  // ----- At most one commit -----

  /** The one dangerous moment: a sweep that decided earlier deletes the record while the row
      is still committing, so that nothing durable shows the commit happened. */
  predicate Forgets(s: State, step: Step) {
    step.SweepRecord? && s.record.Some? && s.row.Some? && s.row.value.phase.Committing?
  }

  predicate Open(row: Option<Row>) {
    row.Some? && (row.value.phase.InProgress? || row.value.phase.Committing?)
  }

  /** An upload that has committed is either closed or visibly committing with its record. */
  predicate CommitIsVisible(s: State) {
    s.commits != [] && Open(s.row) ==> s.row.value.phase.Committing? && s.record.Some?
  }

  predicate HandlerInv(s: State) {
    match s.handler
    case NoRecord => s.record.None?
    case Marking(upload) => s.record.None? && s.commits == [] && Open(Some(upload))
    case Assembling(upload) => s.record.None? && s.commits == [] && upload.phase.Committing?
    case Assembled(upload, _) => s.record.None? && s.commits == [] && upload.phase.Committing?
    case Tagged(upload, _) => s.record.None? && s.commits == [] && (Open(s.row) ==> s.row.value.phase.Committing?)
    case Installed(upload, _) => s.record.None? && s.commits == [] && (Open(s.row) ==> s.row.value.phase.Committing?)
    case Finishing(_, etag) => |s.commits| == 1 && s.commits[0].etag == etag
    case Replying(etag) => |s.commits| == 1 && s.commits[0].etag == etag
    case _ => true
  }

  /** Abort removes the row instead of marking it. */
  predicate NeverAborted(s: State) {
    s.row.Some? ==> !s.row.value.phase.Aborted?
  }

  predicate Inv(s: State) {
    && (!s.created ==> s.row.None? && s.commits == [] && (s.handler.Idle? || s.handler.Started? || s.handler.NoRecord?))
    && NeverAborted(s)
    && |s.commits| <= 1
    && (s.record.Some? ==> |s.commits| == 1 && s.record.value.etag == s.commits[0].etag)
    && CommitIsVisible(s)
    && (forall e | e in s.replies :: |s.commits| == 1 && e == s.commits[0].etag)
    && HandlerInv(s)
  }

  /** The steps of a Complete before it writes its ETag, and those from there on. */
  predicate PreparesComplete(step: Step) {
    step.BeginComplete? || step.LookupRecord? || step.LookupRow? || step.MarkCommitting? || step.Assemble?
  }

  predicate FinishesComplete(step: Step) {
    step.StoreTag? || step.Install? || step.CommitBatch? || step.MarkDone? || step.Reply?
  }

  lemma PreparingKeepsInv(s: State, step: Step, md5: Bytes -> Digest)
    requires Inv(s) && Enabled(s, step) && PreparesComplete(step)
    ensures Inv(Next(s, step, md5))
  {
  }

  lemma FinishingKeepsInv(s: State, step: Step, md5: Bytes -> Digest)
    requires Inv(s) && Enabled(s, step) && FinishesComplete(step)
    ensures Inv(Next(s, step, md5))
  {
  }

  lemma StepKeepsInv(s: State, step: Step, md5: Bytes -> Digest)
    requires Inv(s) && Enabled(s, step) && !Forgets(s, step)
    ensures Inv(Next(s, step, md5))
  {
    if PreparesComplete(step) {
      PreparingKeepsInv(s, step, md5);
    } else if FinishesComplete(step) {
      FinishingKeepsInv(s, step, md5);
    }
  }

  /** No step of the run is a sweep forgetting a commit. */
  predicate NeverForgets(s: State, steps: seq<Step>, md5: Bytes -> Digest)
    requires Runs(s, steps, md5)
    decreases |steps|
  {
    steps == [] || (!Forgets(s, steps[0]) && NeverForgets(Next(s, steps[0], md5), steps[1..], md5))
  }

  lemma {:induction false} RunKeepsInv(s: State, steps: seq<Step>, md5: Bytes -> Digest)
    requires Inv(s) && Runs(s, steps, md5) && NeverForgets(s, steps, md5)
    ensures Inv(After(s, steps, md5))
    decreases |steps|
  {
    if steps != [] {
      StepKeepsInv(s, steps[0], md5);
      RunKeepsInv(Next(s, steps[0], md5), steps[1..], md5);
    }
  }

  /** Main result: over every run in which no sweep forgets a commit, the upload commits at
      most once, every Complete that ever reports success reports that commit's ETag, and a
      present record leaves the row absent, committing or done. */
  lemma CommitsAtMostOnce(steps: seq<Step>, md5: Bytes -> Digest)
    requires Runs(START, steps, md5) && NeverForgets(START, steps, md5)
    ensures var s := After(START, steps, md5);
            && |s.commits| <= 1
            && (forall e | e in s.replies :: |s.commits| == 1 && e == s.commits[0].etag)
            && (s.record.Some? ==> |s.commits| == 1 && s.record.value.etag == s.commits[0].etag)
            && (s.record.Some? && s.row.Some? ==> s.row.value.phase.Committing? || s.row.value.phase.Done?)
  {
    RunKeepsInv(START, steps, md5);
  }

  // ----- What is committed -----

  /** The run assembled the commit from its state at some earlier step. */
  ghost predicate Assembles(s: State, steps: seq<Step>, c: Commit, md5: Bytes -> Digest) {
    exists k | 0 <= k < |steps| :: AssemblesAt(s, steps, k, c, md5)
  }

  predicate AssemblesAt(s: State, steps: seq<Step>, k: nat, c: Commit, md5: Bytes -> Digest)
    requires k < |steps|
  {
    && steps[k] == Assemble(c.listed)
    && Runs(s, steps[..k], md5) && AssembledFrom(After(s, steps[..k], md5), c)
  }

  lemma {:induction false} RunBack(s: State, steps: seq<Step>, step: Step, md5: Bytes -> Digest)
    requires Runs(s, steps + [step], md5)
    ensures Runs(s, steps, md5) && Enabled(After(s, steps, md5), step)
    ensures After(s, steps + [step], md5) == Next(After(s, steps, md5), step, md5)
    decreases |steps|
  {
    if steps == [] {
      assert [step][1..] == [];
    } else {
      assert (steps + [step])[1..] == steps[1..] + [step];
      RunBack(Next(s, steps[0], md5), steps[1..], step, md5);
    }
  }

  lemma AssemblesLater(s: State, steps: seq<Step>, step: Step, c: Commit, md5: Bytes -> Digest)
    requires Assembles(s, steps, c, md5)
    ensures Assembles(s, steps + [step], c, md5)
  {
    var k :| 0 <= k < |steps| && AssemblesAt(s, steps, k, c, md5);
    assert (steps + [step])[..k] == steps[..k];
    assert AssemblesAt(s, steps + [step], k, c, md5);
  }

  /** What a handler is about to commit. */
  function Pending(h: Handler): Option<Commit> {
    if h.Assembled? || h.Tagged? || h.Installed? then Some(h.commit) else None
  }

  /** Nothing but what was pending is committed. */
  lemma StepCommitsPending(s: State, step: Step, md5: Bytes -> Digest)
    requires Enabled(s, step)
    ensures var t := Next(s, step, md5);
            || t.commits == s.commits
            || (Pending(s.handler).Some? && t.commits == s.commits + [Pending(s.handler).value])
  {
  }

  lemma StepKeepsPending(s: State, step: Step, md5: Bytes -> Digest)
    requires Enabled(s, step) && !step.Assemble?
    ensures var p := Pending(Next(s, step, md5).handler);
            p.None? || p == Pending(s.handler)
  {
    if FinishesComplete(step) {
      FinishingKeepsPending(s, step, md5);
    } else if PreparesComplete(step) {
      PreparingPendsNothing(s, step, md5);
    } else {
      assert Next(s, step, md5).handler in {s.handler, Idle} || step.PublishPart?;
    }
  }

  lemma FinishingKeepsPending(s: State, step: Step, md5: Bytes -> Digest)
    requires Enabled(s, step) && FinishesComplete(step)
    ensures var p := Pending(Next(s, step, md5).handler);
            p.None? || p == Pending(s.handler)
  {
  }

  lemma PreparingPendsNothing(s: State, step: Step, md5: Bytes -> Digest)
    requires Enabled(s, step) && PreparesComplete(step) && !step.Assemble?
    ensures Pending(Next(s, step, md5).handler).None?
  {
  }

  lemma AssemblyMakesPending(s: State, step: Step, md5: Bytes -> Digest)
    requires Enabled(s, step) && step.Assemble?
    ensures var p := Pending(Next(s, step, md5).handler);
            p.Some? && step.listed == p.value.listed && AssembledFrom(s, p.value)
  {
  }

  lemma {:induction false} RunAssembles(s: State, steps: seq<Step>, md5: Bytes -> Digest)
    requires s.commits == [] && Pending(s.handler).None? && Runs(s, steps, md5)
    ensures forall c | c in After(s, steps, md5).commits :: Assembles(s, steps, c, md5)
    ensures Pending(After(s, steps, md5).handler).Some? ==>
              Assembles(s, steps, Pending(After(s, steps, md5).handler).value, md5)
    decreases |steps|
  {
    if steps != [] {
      var n := |steps| - 1;
      var prev, step := steps[..n], steps[n];
      assert steps == prev + [step];
      RunBack(s, prev, step, md5);
      RunAssembles(s, prev, md5);
      var t := After(s, prev, md5);
      StepCommitsPending(t, step, md5);
      if step.Assemble? {
        AssemblyMakesPending(t, step, md5);
      } else {
        StepKeepsPending(t, step, md5);
      }
      forall c | Assembles(s, prev, c, md5) ensures Assembles(s, steps, c, md5) {
        AssemblesLater(s, prev, step, c, md5);
      }
      forall c: Commit | step == Assemble(c.listed) && AssembledFrom(t, c) ensures Assembles(s, steps, c, md5) {
        assert steps[..n] == prev;
        assert AssemblesAt(s, steps, n, c, md5);
      }
    }
  }

  /** Over every run, each commit is what some Complete listed: its parts in the client's order,
      complete, as recorded and staged when they were put together, under strictly ascending
      numbers and the very digests the client named. */
  lemma CommitsWhatWasListed(steps: seq<Step>, md5: Bytes -> Digest)
    requires Runs(START, steps, md5)
    ensures forall c | c in After(START, steps, md5).commits ::
              Assembles(START, steps, c, md5) && NamesItsParts(c)
  {
    RunAssembles(START, steps, md5);
    forall c | c in After(START, steps, md5).commits ensures NamesItsParts(c) {
      var k :| 0 <= k < |steps| && AssemblesAt(START, steps, k, c, md5);
    }
  }

  predicate NamesItsParts(c: Commit) {
    && |c.etag| == |c.body| == |c.listed| > 0
    && (forall i, j | 0 <= i < j < |c.listed| :: c.listed[i].number < c.listed[j].number)
    && (forall i | 0 <= i < |c.listed| :: EqualFold(c.listed[i].etag, c.etag[i]))
  }

  // ----- Recovery -----

  /** The row carries the ETag of the commit under way from the moment it is stored. */
  predicate TagInv(s: State) {
    && (Open(s.row) ==> s.row.value.completedAt == 0)
    && ((s.handler.Marking? || s.handler.Assembling? || s.handler.Assembled? || s.handler.Tagged?
         || s.handler.Installed?) ==> s.handler.upload.completedAt == 0)
    && (s.handler.Assembled? ==> s.handler.commit.etag != [])
    && (s.handler.Tagged? || s.handler.Installed? ==>
          s.handler.commit.etag != [] && (s.row.Some? ==> s.row.value.composite == s.handler.commit.etag))
    && (s.record.Some? && Open(s.row) ==>
          s.row.value.composite == s.record.value.etag && s.record.value.etag != [])
  }

  lemma PreparingKeepsTag(s: State, step: Step, md5: Bytes -> Digest)
    requires Inv(s) && TagInv(s) && Enabled(s, step) && PreparesComplete(step)
    ensures TagInv(Next(s, step, md5))
  {
  }

  lemma FinishingKeepsTag(s: State, step: Step, md5: Bytes -> Digest)
    requires Inv(s) && TagInv(s) && Enabled(s, step) && FinishesComplete(step)
    ensures TagInv(Next(s, step, md5))
  {
  }

  lemma StepKeepsTag(s: State, step: Step, md5: Bytes -> Digest)
    requires Inv(s) && TagInv(s) && Enabled(s, step)
    ensures TagInv(Next(s, step, md5))
  {
    if PreparesComplete(step) {
      PreparingKeepsTag(s, step, md5);
    } else if FinishesComplete(step) {
      FinishingKeepsTag(s, step, md5);
    }
  }

  lemma {:induction false} RunKeepsTag(s: State, steps: seq<Step>, md5: Bytes -> Digest)
    requires Inv(s) && TagInv(s) && Runs(s, steps, md5) && NeverForgets(s, steps, md5)
    ensures Inv(After(s, steps, md5)) && TagInv(After(s, steps, md5))
    decreases |steps|
  {
    if steps != [] {
      StepKeepsInv(s, steps[0], md5);
      StepKeepsTag(s, steps[0], md5);
      RunKeepsTag(Next(s, steps[0], md5), steps[1..], md5);
    }
  }

  /** Startup recovery closes a committed upload as its handler would have: a committing row
      with a record becomes a done row with that commit's ETag and its time, and nothing else
      changes; any other row is left alone, so that the client can try again. */
  lemma RecoveryClosesTheUpload(steps: seq<Step>, now: int, md5: Bytes -> Digest)
    requires Runs(START, steps, md5) && NeverForgets(START, steps, md5) && !After(START, steps, md5).up
    ensures var s := After(START, steps, md5);
            var t := Next(s, Recover(now), md5);
            && t == s.(up := true, row := t.row)
            && (s.record.Some? && Open(s.row) ==>
                  && |s.commits| == 1 && t.row.Some? && t.row.value.phase.Done?
                  && t.row.value.composite == s.commits[0].etag
                  && t.row.value.completedAt ==
                     (if s.record.value.completedAt != 0 then s.record.value.completedAt else now)
                  && t.row.value.initiated == s.row.value.initiated)
            && (s.record.None? || !Open(s.row) ==> t.row == s.row)
  {
    RunKeepsTag(START, steps, md5);
  }

  // ----- Abort and retention -----

  /** Nothing can complete any more: the row is gone for good. */
  predicate Gone(s: State) {
    s.created && s.row.None? && (s.handler.Idle? || s.handler.Started? || s.handler.NoRecord?)
  }

  lemma GoneStays(s: State, step: Step, md5: Bytes -> Digest)
    requires Gone(s) && Enabled(s, step)
    ensures var t := Next(s, step, md5);
            && Gone(t) && t.commits == s.commits && (t.record == s.record || t.record.None?)
            && Repeats(s.replies, t.replies, s.record)
  {
  }

  /** Every reply after `before` repeats the record. */
  predicate Repeats(before: seq<ETag>, after: seq<ETag>, record: Option<Record>) {
    before <= after && forall i | |before| <= i < |after| :: IsRecorded(after[i], record)
  }

  predicate IsRecorded(etag: ETag, record: Option<Record>) {
    record.Some? && etag == record.value.etag
  }

  lemma RepeatsOn(a: seq<ETag>, b: seq<ETag>, c: seq<ETag>, r: Option<Record>, r': Option<Record>)
    requires Repeats(a, b, r) && Repeats(b, c, r') && (r' == r || r'.None?)
    ensures Repeats(a, c, r)
  {
    assert forall i | 0 <= i < |b| :: b[i] == c[i];
    forall i | |a| <= i < |c| ensures IsRecorded(c[i], r) {
      assert if i < |b| then IsRecorded(b[i], r) else IsRecorded(c[i], r');
    }
  }

  /** After an abort no run commits anything, and a Complete can only repeat a recorded ETag. */
  lemma {:induction false} AbortIsFinal(s: State, steps: seq<Step>, md5: Bytes -> Digest)
    requires Gone(s) && Runs(s, steps, md5)
    ensures var t := After(s, steps, md5);
            && Gone(t) && t.commits == s.commits
            && (t.record == s.record || t.record.None?)
            && Repeats(s.replies, t.replies, s.record)
    decreases |steps|
  {
    if steps != [] {
      var t, u := Next(s, steps[0], md5), After(s, steps, md5);
      GoneStays(s, steps[0], md5);
      AbortIsFinal(t, steps[1..], md5);
      RepeatsOn(s.replies, t.replies, u.replies, s.record, t.record);
    }
  }

  lemma AbortRemovesTheUpload(s: State, md5: Bytes -> Digest)
    requires Inv(s) && Enabled(s, Abort) && s.row.Some?
    ensures var t := Next(s, Abort, md5);
            Gone(t) && t.parts == map[] && t.files == map[] && t.record == s.record && t.commits == s.commits
  {
  }

  /** A sweep takes up a row exactly when it has been done, or in progress, for long enough; a
      committing row is never taken up. */
  lemma SweepBeginsIff(s: State, now: int, cfg: Retention)
    requires Inv(s) && s.row.Some?
    ensures Enabled(s, BeginSweep(now, cfg)) <==>
            && s.up && s.sweep.Resting?
            && ((s.row.value.phase.Done? && 0 < s.row.value.completedAt <= now - cfg.done)
                || (s.row.value.phase.InProgress? && 0 < s.row.value.initiated <= now - cfg.stuck))
  {
  }

  /** The upload is done and its record durable, with no sweep or Complete at work on it. */
  predicate Retained(s: State, row: Row, record: Record) {
    && s.created && s.sweep.Resting? && (s.handler.Idle? || s.handler.Started?)
    && row.phase.Done? && (s.row == Some(row) || s.row.None?) && s.record == Some(record)
  }

  /** The step is no sweep at a time when the row is old enough to go. */
  predicate WithinRetention(step: Step, row: Row) {
    step.BeginSweep? ==> row.completedAt <= 0 || step.now - row.completedAt < step.cfg.done
  }

  /** A done upload keeps its record through every sweep before its retention is over. */
  lemma {:induction false} RecordIsRetained(s: State, row: Row, record: Record, steps: seq<Step>, md5: Bytes -> Digest)
    requires Retained(s, row, record) && Runs(s, steps, md5)
    requires forall i | 0 <= i < |steps| :: WithinRetention(steps[i], row)
    ensures Retained(After(s, steps, md5), row, record)
    ensures After(s, steps, md5).commits == s.commits
    decreases |steps|
  {
    if steps != [] {
      assert WithinRetention(steps[0], row);
      RecordIsRetained(Next(s, steps[0], md5), row, record, steps[1..], md5);
    }
  }

  /** And once it is over, a sweep takes the record and then the row. */
  lemma RecordIsRetired(s: State, row: Row, record: Record, now: int, cfg: Retention, md5: Bytes -> Digest)
    requires Retained(s, row, record) && s.up && s.row == Some(row)
    requires !WithinRetention(BeginSweep(now, cfg), row)
    ensures var steps := [BeginSweep(now, cfg)] + [SweepRecord] + [SweepRow];
            && Runs(s, steps, md5)
            && After(s, steps, md5) == s.(record := None, row := None, parts := map[], files := map[])
  {
    RunOn(s, [], BeginSweep(now, cfg), md5);
    RunOn(s, [BeginSweep(now, cfg)], SweepRecord, md5);
    RunOn(s, [BeginSweep(now, cfg)] + [SweepRecord], SweepRow, md5);
  }

  // ----- When a sweep can forget -----

  predicate Completing(h: Handler) {
    !h.Idle? && !h.PartPublished?
  }

  /** A sweep's decide-and-delete and a Complete do not overlap. */
  predicate Apart(s: State, step: Step) {
    && (step.BeginSweep? ==> !Completing(s.handler))
    && (step.BeginComplete? ==> s.sweep.Resting?)
  }

  predicate AllApart(s: State, steps: seq<Step>, md5: Bytes -> Digest)
    requires Runs(s, steps, md5)
    decreases |steps|
  {
    steps == [] || (Apart(s, steps[0]) && AllApart(Next(s, steps[0], md5), steps[1..], md5))
  }

  /** While a sweep is at work no Complete is, and the row is not committing. */
  predicate SweepAlone(s: State) {
    s.sweep.Resting? || (!Completing(s.handler) && (s.row.Some? ==> !s.row.value.phase.Committing?))
  }

  lemma {:induction false} ApartNeverForgets(s: State, steps: seq<Step>, md5: Bytes -> Digest)
    requires SweepAlone(s) && Runs(s, steps, md5) && AllApart(s, steps, md5)
    ensures NeverForgets(s, steps, md5)
    decreases |steps|
  {
    if steps != [] {
      ApartNeverForgets(Next(s, steps[0], md5), steps[1..], md5);
    }
  }

  /** So when sweeps and Completes do not overlap, an upload never commits twice. */
  lemma ApartCommitsAtMostOnce(steps: seq<Step>, md5: Bytes -> Digest)
    requires Runs(START, steps, md5) && AllApart(START, steps, md5)
    ensures |After(START, steps, md5).commits| <= 1
  {
    ApartNeverForgets(START, steps, md5);
    CommitsAtMostOnce(steps, md5);
  }

  /** A forgotten commit is repeated: after it, a crash and a client retry of Complete with any
      list that can be completed, the upload commits a second time. */
  lemma ForgettingRepeatsTheCommit(s: State, listed: seq<Listed>, md5: Bytes -> Digest) returns (steps: seq<Step>)
    requires s.up && Enabled(s, SweepRecord) && Forgets(s, SweepRecord)
    requires Completable(s, listed)
    ensures Runs(s, steps, md5)
    ensures [SweepRecord] <= steps && |After(s, steps, md5).commits| == |s.commits| + 1
  {
    steps := [];
    RunOn(s, steps, SweepRecord, md5);
    steps := steps + [SweepRecord];
    RunOn(s, steps, Crash, md5);
    steps := steps + [Crash];
    RunOn(s, steps, Recover(0), md5);
    steps := steps + [Recover(0)];
    var t := After(s, steps, md5);
    assert t == s.(record := None, handler := Idle, sweep := Resting);
    var commit;
    steps, commit := RetryCommits(s, steps, t, listed, 0, md5);
  }

  /** An upload-part stages its bytes and records their digest and size under its number,
      replacing an earlier part of that number and leaving the others. */
  lemma PartIsRecorded(s: State, n: PartNumber, blob: Bytes, md5: Bytes -> Digest)
    requires s.up && s.handler.Idle? && s.row.Some? && s.row.value.phase.InProgress?
    ensures var steps := [PublishPart(n, blob)] + [RecordPart];
            && Runs(s, steps, md5)
            && var t := After(s, steps, md5);
            && t == s.(parts := t.parts, files := t.files)
            && t.parts.Keys == s.parts.Keys + {n} && t.files.Keys == s.files.Keys + {n}
            && t.parts[n] == Part(md5(blob), |blob|) && t.files[n] == blob
            && (forall k | k in s.parts && k != n :: t.parts[k] == s.parts[k])
            && (forall k | k in s.files && k != n :: t.files[k] == s.files[k])
  {
    RunOn(s, [], PublishPart(n, blob), md5);
    RunOn(s, [PublishPart(n, blob)], RecordPart, md5);
  }

  /** The commit is what the client listed: for each line, in order, the digest recorded for the
      part of that number and the file staged under it. */
  predicate AssembledFrom(s: State, c: Commit) {
    && Completable(s, c.listed)
    && |c.etag| == |c.body| == |c.listed|
    && (forall i | 0 <= i < |c.listed| :: c.etag[i] == s.parts[c.listed[i].number].etag)
    && (forall i | 0 <= i < |c.listed| :: c.body[i] == s.files[c.listed[i].number])
  }

  /** The state after a Complete has reached its commit batch. */
  function Committed(t: State, c: Commit, now: int): State
    requires t.row.Some?
  {
    var upload := t.row.value.(phase := Committing, composite := c.etag);
    t.(row := Some(upload), record := Some(Record(c.etag, now)), commits := t.commits + [c],
       handler := Finishing(upload, c.etag))
  }

  /** With an open row and no record, a Complete of any list that can be completed goes through
      to its commit batch, and commits what was listed. */
  lemma RetryCommits(s: State, steps: seq<Step>, t: State, listed: seq<Listed>, now: int, md5: Bytes -> Digest)
    returns (steps': seq<Step>, c: Commit)
    requires Runs(s, steps, md5) && After(s, steps, md5) == t
    requires t.up && t.handler.Idle? && t.record.None? && Open(t.row) && Completable(t, listed)
    ensures Runs(s, steps', md5) && steps <= steps' && After(s, steps', md5) == Committed(t, c, now)
    ensures c.listed == listed && AssembledFrom(t, c)
  {
    steps' := RetryMarks(s, steps, t, md5);
    c := Commit(listed, Tags(Read(listed, t.parts)), Read(listed, t.files));
    RunOn(s, steps', Assemble(listed), md5);
    steps' := steps' + [Assemble(listed)];
    RunOn(s, steps', StoreTag, md5);
    steps' := steps' + [StoreTag];
    RunOn(s, steps', Install, md5);
    steps' := steps' + [Install];
    RunOn(s, steps', CommitBatch(now), md5);
    steps' := steps' + [CommitBatch(now)];
  }

  /** And from there to a done row, a durable record and a reply with the commit's ETag. */
  lemma CompleteSucceeds(s: State, listed: seq<Listed>, committed: int, marked: int, md5: Bytes -> Digest)
    returns (steps: seq<Step>)
    requires s.up && s.handler.Idle? && s.record.None? && Open(s.row) && Completable(s, listed)
    ensures Runs(s, steps, md5)
    ensures var t := After(s, steps, md5);
            && |t.commits| == |s.commits| + 1 && t.commits[..|s.commits|] == s.commits
            && var c := t.commits[|s.commits|];
            && c.listed == listed && AssembledFrom(s, c)
            && t.record == Some(Record(c.etag, committed))
            && t.row == Some(Row(Done, c.etag, s.row.value.initiated, marked))
            && t.replies == s.replies + [c.etag] && t.handler.Idle?
            && t.files == map[] && t.parts == s.parts
  {
    var c;
    steps, c := RetryCommits(s, [], s, listed, committed, md5);
    RunOn(s, steps, MarkDone(marked, true), md5);
    steps := steps + [MarkDone(marked, true)];
    RunOn(s, steps, Reply, md5);
    steps := steps + [Reply];
  }

  /** A handler ready to install commits exactly when there is no record yet; otherwise it goes
      on as if it had. */
  lemma InstallCommitsIff(s: State, now: int, md5: Bytes -> Digest)
    requires s.handler.Tagged?
    ensures var t := Next(s, Install, md5);
            && t.commits == s.commits && t.record == s.record && t.row == s.row
            && (Enabled(t, CommitBatch(now)) <==> s.record.None?)
            && (s.record.Some? ==> t.handler == Finishing(s.handler.upload, s.handler.commit.etag))
  {
  }

  /** A Complete that finds the record only repeats its ETag. */
  lemma RetryReplies(s: State, md5: Bytes -> Digest) returns (steps: seq<Step>)
    requires s.up && s.handler.Idle? && s.record.Some?
    ensures Runs(s, steps, md5) && After(s, steps, md5) == s.(replies := s.replies + [s.record.value.etag])
  {
    RunOn(s, [], BeginComplete, md5);
    RunOn(s, [BeginComplete], LookupRecord, md5);
    steps := [BeginComplete] + [LookupRecord];
  }

  lemma RetryMarks(s: State, steps: seq<Step>, t: State, md5: Bytes -> Digest) returns (steps': seq<Step>)
    requires Runs(s, steps, md5) && After(s, steps, md5) == t
    requires t.up && t.handler.Idle? && t.record.None? && Open(t.row)
    ensures Runs(s, steps', md5) && steps <= steps'
    ensures var upload := t.row.value.(phase := Committing);
            After(s, steps', md5) == t.(row := Some(upload), handler := Assembling(upload))
  {
    RunOn(s, steps, BeginComplete, md5);
    steps' := steps + [BeginComplete];
    RunOn(s, steps', LookupRecord, md5);
    steps' := steps' + [LookupRecord];
    RunOn(s, steps', LookupRow, md5);
    steps' := steps' + [LookupRow];
    RunOn(s, steps', MarkCommitting, md5);
    steps' := steps' + [MarkCommitting];
  }

  /** The premise is needed: a sweep that decided to force-abort a stale upload just before a
      Complete arrived leads to a run with two commits. */
  lemma OverlapCanCommitTwice(md5: Bytes -> Digest) returns (steps: seq<Step>)
    ensures Runs(START, steps, md5) && |After(START, steps, md5).commits| == 2
  {
    var listed := [Listed(1, md5([]))];
    steps := StaleUpload(listed, md5);
    var t := After(START, steps, md5);
    var c;
    steps, c := RetryCommits(START, steps, t, listed, 0, md5);
    var more := ForgettingRepeatsTheCommit(Committed(t, c, 0), listed, md5);
    RunThrough(START, steps, more, md5);
    steps := steps + more;
  }

  /** An upload of one empty part, just taken up by a sweep that found it stale. */
  lemma StaleUpload(listed: seq<Listed>, md5: Bytes -> Digest) returns (steps: seq<Step>)
    requires listed == [Listed(1, md5([]))]
    ensures Runs(START, steps, md5)
    ensures var t := After(START, steps, md5);
            && t.up && t.handler.Idle? && t.record.None? && Open(t.row) && t.commits == []
            && t.sweep.DeletingRecord? && Completable(t, listed)
  {
    RunOn(START, [], Create(1), md5);
    steps := [Create(1)];
    RunOn(START, steps, PublishPart(1, []), md5);
    steps := steps + [PublishPart(1, [])];
    RunOn(START, steps, RecordPart, md5);
    steps := steps + [RecordPart];
    var sweep := BeginSweep(1, Retention(0, 0, 0));
    RunOn(START, steps, sweep, md5);
    steps := steps + [sweep];
  }

  // ----- The content behind the ETag -----

  /** An upload-part that dies between publishing its file and recording its digest, over a
      part already recorded with another digest. */
  predicate Tears(s: State, step: Step) {
    && (step.Fail? || step.Crash?)
    && s.handler.PartPublished?
    && s.handler.number in s.parts && s.parts[s.handler.number].etag != s.handler.digest
  }

  predicate NeverTears(s: State, steps: seq<Step>, md5: Bytes -> Digest)
    requires Runs(s, steps, md5)
    decreases |steps|
  {
    steps == [] || (!Tears(s, steps[0]) && NeverTears(Next(s, steps[0], md5), steps[1..], md5))
  }

  /** The ETag is that of the bytes: each listed digest is the digest of the part installed. */
  predicate Genuine(etag: ETag, body: seq<Bytes>, md5: Bytes -> Digest) {
    |etag| == |body| && forall i | 0 <= i < |body| :: etag[i] == md5(body[i])
  }

  predicate Faithful(s: State, md5: Bytes -> Digest) {
    && (forall n | n in s.parts && n in s.files ::
          md5(s.files[n]) == s.parts[n].etag || (s.handler.PartPublished? && s.handler.number == n))
    && (s.handler.PartPublished? && s.handler.number in s.files ==> s.handler.digest == md5(s.files[s.handler.number]))
    && (s.handler.Assembled? || s.handler.Tagged? || s.handler.Installed? ==>
          Genuine(s.handler.commit.etag, s.handler.commit.body, md5))
    && (forall c | c in s.commits :: Genuine(c.etag, c.body, md5))
  }

  lemma AssembleKeepsFaithful(s: State, listed: seq<Listed>, md5: Bytes -> Digest)
    requires Faithful(s, md5) && Enabled(s, Assemble(listed))
    ensures Faithful(Next(s, Assemble(listed), md5), md5)
  {
    assert Genuine(Tags(Read(listed, s.parts)), Read(listed, s.files), md5);
  }

  lemma CommitKeepsFaithful(s: State, now: int, md5: Bytes -> Digest)
    requires Faithful(s, md5) && Enabled(s, CommitBatch(now))
    ensures Faithful(Next(s, CommitBatch(now), md5), md5)
  {
  }

  lemma PreparingKeepsFaithful(s: State, step: Step, md5: Bytes -> Digest)
    requires Faithful(s, md5) && Enabled(s, step) && PreparesComplete(step)
    ensures Faithful(Next(s, step, md5), md5)
  {
    if step.Assemble? {
      AssembleKeepsFaithful(s, step.listed, md5);
    } else {
      assert Next(s, step, md5).commits == s.commits;
    }
  }

  lemma FinishingKeepsFaithful(s: State, step: Step, md5: Bytes -> Digest)
    requires Faithful(s, md5) && Enabled(s, step) && FinishesComplete(step)
    ensures Faithful(Next(s, step, md5), md5)
  {
    if step.CommitBatch? {
      CommitKeepsFaithful(s, step.now, md5);
    } else {
      assert Next(s, step, md5).commits == s.commits;
    }
  }

  lemma PartKeepsFaithful(s: State, step: Step, md5: Bytes -> Digest)
    requires Faithful(s, md5) && Enabled(s, step) && (step.PublishPart? || step.RecordPart?)
    ensures Faithful(Next(s, step, md5), md5)
  {
  }

  lemma StepKeepsFaithful(s: State, step: Step, md5: Bytes -> Digest)
    requires Faithful(s, md5) && Enabled(s, step) && !Tears(s, step)
    ensures Faithful(Next(s, step, md5), md5)
  {
    if PreparesComplete(step) {
      PreparingKeepsFaithful(s, step, md5);
    } else if FinishesComplete(step) {
      FinishingKeepsFaithful(s, step, md5);
    } else if step.PublishPart? || step.RecordPart? {
      PartKeepsFaithful(s, step, md5);
    } else {
      assert Next(s, step, md5).commits == s.commits;
    }
  }

  lemma {:induction false} RunKeepsFaithful(s: State, steps: seq<Step>, md5: Bytes -> Digest)
    requires Faithful(s, md5) && Runs(s, steps, md5) && NeverTears(s, steps, md5)
    ensures Faithful(After(s, steps, md5), md5)
    decreases |steps|
  {
    if steps != [] {
      StepKeepsFaithful(s, steps[0], md5);
      RunKeepsFaithful(Next(s, steps[0], md5), steps[1..], md5);
    }
  }

  /** In every run in which no upload-part is torn, each commit installs the very bytes whose
      digests make up its ETag. */
  lemma CommittedContentMatchesETag(steps: seq<Step>, md5: Bytes -> Digest)
    requires Runs(START, steps, md5) && NeverTears(START, steps, md5)
    ensures forall c | c in After(START, steps, md5).commits :: Genuine(c.etag, c.body, md5)
  {
    RunKeepsFaithful(START, steps, md5);
  }

  /** And only then: a torn part, completed as listed, is committed under a digest that is not
      its own, because assembly does not read the part's digest again. */
  lemma TornPartSpoilsTheCommit(s: State, md5: Bytes -> Digest) returns (steps: seq<Step>)
    requires s.up && s.handler.PartPublished? && Tears(s, Fail)
    requires s.handler.number in s.files && s.handler.digest == md5(s.files[s.handler.number])
    requires s.record.None? && Open(s.row)
    ensures Runs(s, steps, md5)
    ensures exists c | c in After(s, steps, md5).commits :: !Genuine(c.etag, c.body, md5)
  {
    var n := s.handler.number;
    RunOn(s, [], Fail, md5);
    var c;
    steps, c := RetryCommits(s, [Fail], s.(handler := Idle), [Listed(n, s.parts[n].etag)], 0, md5);
    assert c.etag[0] != md5(c.body[0]);
    assert c in After(s, steps, md5).commits;
  }

  /** Such a state is reached: re-uploading a part with other bytes, dying before its digest is
      recorded, and completing commits an object that does not match its ETag. */
  lemma TornPartIsReached(md5: Bytes -> Digest, a: Bytes, b: Bytes) returns (steps: seq<Step>)
    requires md5(a) != md5(b)
    ensures Runs(START, steps, md5)
    ensures exists c | c in After(START, steps, md5).commits :: !Genuine(c.etag, c.body, md5)
  {
    RunOn(START, [], Create(1), md5);
    steps := [Create(1)];
    RunOn(START, steps, PublishPart(1, a), md5);
    steps := steps + [PublishPart(1, a)];
    RunOn(START, steps, RecordPart, md5);
    steps := steps + [RecordPart];
    RunOn(START, steps, PublishPart(1, b), md5);
    steps := steps + [PublishPart(1, b)];
    var more := TornPartSpoilsTheCommit(After(START, steps, md5), md5);
    RunThrough(START, steps, more, md5);
    steps := steps + more;
  }
}

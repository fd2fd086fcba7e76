/** The commit protocol of one upload session across crashes, retries, aborts and cleanup.
    While the session row exists every handler works under the session's one mutex, so at most
    one is between its first write and its last; a handler that finds the row gone writes nothing. */
module UploadSessions {
  import opened ByteStrings
  import opened Wrappers

  datatype Phase = InProgress | Committing | Committed | Aborted

  /** What was declared when the session was created, and the hash it is checked with. Without
      `overwrite`, the default, an existing file is a conflict. */
  datatype Declared = Declared(size: nat, checksum: Bytes, sha: Bytes -> Bytes, overwrite: bool)

  predicate Matches(d: Declared, content: Bytes) {
    |content| == d.size && d.sha(content) == d.checksum
  }

  /** Where the handler that holds the session mutex stands between two durable writes. */
  datatype Handler =
    | Idle
    | Replacing(content: Bytes)
    | Reverting
    | Finishing
    | Cleaning

  /** The session row, the commit record, the file at the session's path, every content this
      session has installed so far, and whether one of the installs is settled: its replace
      reported success, or the process died before it could report. */
  datatype State = State(
    created: bool, session: Option<Phase>, record: bool, file: Option<Bytes>,
    installs: seq<Bytes>, settled: bool, handler: Handler)

  /** The durable effects of the handlers, the end of the process, and writes by others. A write
      that fails leaves the row as it was. A replace can fail before it has put the content in
      place, or after: the rename comes first, ownership and indexing follow. The process can
      die before or after the rename, too. */
  datatype Step =
    | Create
    | BeginCommit(content: Bytes)
    | ReplaceSucceeds
    | ReplaceFails(installed: bool)
    | Revert(written: bool)
    | Finish(written: bool)
    | Recover
    | Abort
    | RemoveSession
    | RemoveRecord(written: bool)
    | Crash(installed: bool)
    | Overwrite(file: Option<Bytes>)

  function Start(file: Option<Bytes>): State {
    State(false, None, false, file, [], false, Idle)
  }

  /** A replace may put its content in place: by overwriting, or where there is no file. */
  predicate CanInstall(d: Declared, s: State) {
    s.handler.Replacing? && (d.overwrite || s.file.None?)
  }

  predicate Enabled(d: Declared, s: State, step: Step) {
    match step
    case Create => !s.created
    case BeginCommit(content) => s.handler.Idle? && !s.record && s.session == Some(InProgress) && Matches(d, content)
    case ReplaceSucceeds => CanInstall(d, s)
    case ReplaceFails(installed) => if installed then CanInstall(d, s) else s.handler.Replacing?
    case Revert(_) => s.handler.Reverting?
    case Finish(_) => s.handler.Finishing?
    case Recover =>
      && s.handler.Idle? && !s.record && s.session == Some(Committing)
      && s.file.Some? && Matches(d, s.file.value)
    case Abort => s.handler.Idle? && s.session.Some? && s.session != Some(Committed)
    case RemoveSession => s.handler.Idle? && s.session.Some?
    case RemoveRecord(_) => s.handler.Cleaning?
    case Crash(installed) => installed ==> CanInstall(d, s)
    case Overwrite(_) => true
  }

  /** The content put in place. */
  function Installed(s: State): State
    requires s.handler.Replacing?
  {
    s.(file := Some(s.handler.content), installs := s.installs + [s.handler.content])
  }

  function Next(d: Declared, s: State, step: Step): State
    requires Enabled(d, s, step)
  {
    match step
    case Create => s.(created := true, session := Some(InProgress))
    case BeginCommit(content) => s.(session := Some(Committing), handler := Replacing(content))
    case ReplaceSucceeds => Installed(s).(settled := true, handler := Finishing)
    case ReplaceFails(installed) => (if installed then Installed(s) else s).(handler := Reverting)
    case Revert(written) => s.(session := if written then Some(InProgress) else s.session, handler := Idle)
    case Finish(written) =>
      s.(session := if written then Some(Committed) else s.session, record := s.record || written, handler := Idle)
    case Recover => s.(session := Some(Committed), record := true)
    case Abort => s.(session := Some(Aborted))
    case RemoveSession => s.(session := None, handler := Cleaning)
    case RemoveRecord(written) => s.(record := s.record && !written, handler := Idle)
    case Crash(installed) => (if installed then Installed(s).(settled := true) else s).(handler := Idle)
    case Overwrite(file) => s.(file := file)
  }

  ghost predicate Inv(d: Declared, s: State) {
    && (!s.created ==> s.session.None? && !s.record && s.installs == [] && !s.settled && s.handler.Idle?)
    && (s.handler.Replacing? || s.handler.Reverting? || s.handler.Finishing? ==> s.session == Some(Committing))
    && (s.handler.Replacing? ==> Matches(d, s.handler.content))
    && (s.handler.Cleaning? ==> s.session.None?)
    && (s.record ==> s.session.None? || s.session == Some(Committed))
    && (s.session == Some(Committed) ==> s.record)
    && (forall c | c in s.installs :: Matches(d, c))
    && (s.settled ==> s.session != Some(InProgress) && !s.handler.Replacing? && !s.handler.Reverting?)
    && (s.handler.Finishing? ==> s.settled)
  }

  lemma StepKeepsInv(d: Declared, s: State, step: Step)
    requires Inv(d, s) && Enabled(d, s, step)
    ensures Inv(d, Next(d, s, step))
  {
  }

  ghost predicate Run(d: Declared, states: seq<State>, steps: seq<Step>) {
    && |states| == |steps| + 1 && states[0] == Start(states[0].file)
    && forall i | 0 <= i < |steps| :: Enabled(d, states[i], steps[i]) && states[i + 1] == Next(d, states[i], steps[i])
  }

  lemma {:induction false} RunKeepsInv(d: Declared, states: seq<State>, steps: seq<Step>, i: nat)
    requires Run(d, states, steps) && i < |states|
    ensures Inv(d, states[i])
  {
    if i > 0 {
      RunKeepsInv(d, states, steps, i - 1);
      StepKeepsInv(d, states[i - 1], steps[i - 1]);
    }
  }

  function One(b: bool): nat {
    if b then 1 else 0
  }

  /** How many of the steps are replaces that failed with the content already in place. */
  function LateFailures(steps: seq<Step>): nat {
    if steps == [] then 0
    else LateFailures(steps[..|steps| - 1]) + One(steps[|steps| - 1] == ReplaceFails(true))
  }

  lemma StepInstalls(d: Declared, s: State, step: Step)
    requires Inv(d, s) && Enabled(d, s, step)
    ensures var n := Next(d, s, step);
            |n.installs| + One(s.settled) == |s.installs| + One(step == ReplaceFails(true)) + One(n.settled)
    ensures var n := Next(d, s, step);
            !d.overwrite ==>
              |n.installs| + One(s.file.Some?) <=
              |s.installs| + One(step == Overwrite(None) && s.installs != []) + One(n.file.Some?) || n.installs == []
  {
  }

  /** Over every run: the contents installed are the settled one and those of replaces that
      failed late, and all of them have the declared size and checksum. */
  lemma {:induction false} InstallsAreCounted(d: Declared, states: seq<State>, steps: seq<Step>, i: nat)
    requires Run(d, states, steps) && i < |states|
    ensures |states[i].installs| == LateFailures(steps[..i]) + One(states[i].settled)
    ensures forall c | c in states[i].installs :: |c| == d.size && d.sha(c) == d.checksum
  {
    RunKeepsInv(d, states, steps, i);
    if i > 0 {
      RunKeepsInv(d, states, steps, i - 1);
      StepInstalls(d, states[i - 1], steps[i - 1]);
      InstallsAreCounted(d, states, steps, i - 1);
      assert steps[..i][..i - 1] == steps[..i - 1];
    }
  }

  lemma {:induction false} NoLateFailure(steps: seq<Step>)
    ensures LateFailures(steps) == 0 <==> forall i | 0 <= i < |steps| :: steps[i] != ReplaceFails(true)
  {
    if steps != [] {
      NoLateFailure(steps[..|steps| - 1]);
    }
  }

  /** Across crashes and retries a session installs at most once, provided no replace fails
      after it has put the content in place. */
  lemma InstallsAtMostOnce(d: Declared, states: seq<State>, steps: seq<Step>, i: nat)
    requires Run(d, states, steps) && i < |states|
    requires forall k | 0 <= k < i :: steps[k] != ReplaceFails(true)
    ensures |states[i].installs| <= 1
  {
    InstallsAreCounted(d, states, steps, i);
    NoLateFailure(steps[..i]);
  }

  /** How many times someone removed the file although the session had installed before. */
  function Removals(states: seq<State>, steps: seq<Step>): nat
    requires |steps| <= |states|
  {
    if steps == [] then 0
    else
      var n := |steps| - 1;
      Removals(states, steps[..n]) + One(steps[n] == Overwrite(None) && states[n].installs != [])
  }

  /** Without overwrite every install but the first needs such a removal, late failures or not. */
  lemma {:induction false} InstallsNeedRemovals(d: Declared, states: seq<State>, steps: seq<Step>, i: nat)
    requires Run(d, states, steps) && i < |states| && !d.overwrite
    ensures |states[i].installs| <= Removals(states, steps[..i]) + One(states[i].file.Some?)
  {
    if i > 0 {
      RunKeepsInv(d, states, steps, i - 1);
      StepInstalls(d, states[i - 1], steps[i - 1]);
      InstallsNeedRemovals(d, states, steps, i - 1);
      assert steps[..i][..i - 1] == steps[..i - 1];
    }
  }

  lemma {:induction false} NoRemovals(states: seq<State>, steps: seq<Step>)
    requires |steps| <= |states|
    requires forall k | 0 <= k < |steps| && steps[k] == Overwrite(None) :: states[k].installs == []
    ensures Removals(states, steps) == 0
  {
    if steps != [] {
      NoRemovals(states, steps[..|steps| - 1]);
    }
  }

  /** So without overwrite a session installs at most once as long as nobody removes the file
      it has installed. */
  lemma WithoutOverwriteInstallsOnce(d: Declared, states: seq<State>, steps: seq<Step>, i: nat)
    requires Run(d, states, steps) && i < |states| && !d.overwrite
    requires forall k | 0 <= k < i && steps[k] == Overwrite(None) :: states[k].installs == []
    ensures |states[i].installs| <= 1
  {
    InstallsNeedRemovals(d, states, steps, i);
    NoRemovals(states, steps[..i]);
  }

  /** Every run that ends in a late failure goes on to another install, by the row going back to
      in-progress and a retry of the commit: directly with overwrite, and once someone has
      removed the file without. */
  lemma LateFailureInstallsAgain(d: Declared, states: seq<State>, steps: seq<Step>)
    returns (states': seq<State>, steps': seq<Step>)
    requires Run(d, states, steps) && steps != [] && steps[|steps| - 1] == ReplaceFails(true)
    ensures Run(d, states', steps') && steps <= steps'
    ensures d.overwrite ==> forall k | |steps| <= k < |steps'| :: !steps'[k].Overwrite?
    ensures |states'[|states'| - 1].installs| == |states[|states| - 1].installs| + 1 >= 2
  {
    var n := |steps| - 1;
    RunKeepsInv(d, states, steps, n);
    RunKeepsInv(d, states, steps, n + 1);
    InstallsAreCounted(d, states, steps, n + 1);
    var content := states[n].handler.content;
    assert states[n + 1] == Next(d, states[n], steps[n]);
    states', steps' := Extend(d, states, steps, Revert(true));
    if !d.overwrite {
      states', steps' := Extend(d, states', steps', Overwrite(None));
    }
    states', steps' := Extend(d, states', steps', BeginCommit(content));
    states', steps' := Extend(d, states', steps', ReplaceSucceeds);
  }

  /** Steps that keep a refused session refused: nobody removes the file, the process stays up
      and the row goes back to in-progress each time. */
  predicate StaysPut(step: Step) {
    step != Overwrite(None) && !step.Crash? && step != Revert(false)
  }

  /** A session whose content is in place without being settled, and whose commits start over. */
  predicate Refused(s: State) {
    && s.file.Some? && !s.settled && !s.record && s.session != Some(Committed)
    && (s.session == Some(Committing) ==> s.handler.Replacing? || s.handler.Reverting?)
  }

  /** Without overwrite a late failure is final while that lasts: every retry is refused, nothing
      is installed and the session is never committed. */
  lemma {:induction false} LateFailureIsRefused(d: Declared, states: seq<State>, steps: seq<Step>, i: nat, j: nat)
    requires Run(d, states, steps) && !d.overwrite && i < j < |states| && steps[i] == ReplaceFails(true)
    requires forall k | i < k < j :: StaysPut(steps[k])
    ensures Refused(states[j]) && states[j].installs == states[i + 1].installs
  {
    RunKeepsInv(d, states, steps, i);
    RunKeepsInv(d, states, steps, j - 1);
    if j > i + 1 {
      LateFailureIsRefused(d, states, steps, i, j - 1);
    }
  }

  lemma Extend(d: Declared, states: seq<State>, steps: seq<Step>, step: Step)
    returns (states': seq<State>, steps': seq<Step>)
    requires Run(d, states, steps) && Enabled(d, states[|states| - 1], step)
    ensures Run(d, states', steps') && states' == states + [Next(d, states[|states| - 1], step)]
    ensures steps' == steps + [step]
  {
    states', steps' := states + [Next(d, states[|states| - 1], step)], steps + [step];
    forall i | 0 <= i < |steps'|
      ensures Enabled(d, states'[i], steps'[i]) && states'[i + 1] == Next(d, states'[i], steps'[i])
    {
      assert i < |steps| ==> states'[i] == states[i] && states'[i + 1] == states[i + 1] && steps'[i] == steps[i];
    }
  }

  /** A run in which one session with overwrite installs its content twice. */
  lemma RetryCanInstallTwice(d: Declared, content: Bytes) returns (states: seq<State>, steps: seq<Step>)
    requires Matches(d, content) && d.overwrite
    ensures Run(d, states, steps) && states[|states| - 1].installs == [content, content]
  {
    states, steps := [Start(None)], [];
    states, steps := Extend(d, states, steps, Create);
    states, steps := Extend(d, states, steps, BeginCommit(content));
    states, steps := Extend(d, states, steps, ReplaceFails(true));
    states, steps := Extend(d, states, steps, Revert(true));
    states, steps := Extend(d, states, steps, BeginCommit(content));
    states, steps := Extend(d, states, steps, ReplaceSucceeds);
  }

  /** A commit record means the session is committed or gone, and a committed session has one. */
  lemma RecordMeansCommittedOrGone(d: Declared, states: seq<State>, steps: seq<Step>, i: nat)
    requires Run(d, states, steps) && i < |states|
    ensures states[i].record ==> states[i].session.None? || states[i].session == Some(Committed)
    ensures states[i].session == Some(Committed) ==> states[i].record
  {
    RunKeepsInv(d, states, steps, i);
  }

  /** A session that was committed, aborted or removed. */
  predicate Ended(s: State) {
    s.created && (s.session.None? || s.session == Some(Committed) || s.session == Some(Aborted))
  }

  /** Once a session has ended its phase never changes again, up to removal of the row, and
      nothing more is installed. */
  lemma {:induction false} EndedStaysEnded(d: Declared, states: seq<State>, steps: seq<Step>, i: nat, j: nat)
    requires Run(d, states, steps) && i <= j < |states| && Ended(states[i])
    ensures Ended(states[j]) && states[j].installs == states[i].installs
    ensures states[j].session == states[i].session || states[j].session.None?
  {
    if i < j {
      EndedStaysEnded(d, states, steps, i, j - 1);
      RunKeepsInv(d, states, steps, j - 1);
    }
  }

  /** After a successful replace, or one the process did not survive, no later commit replaces
      again, even when the outcome was never recorded. */
  lemma {:induction false} ReplacedOnceForAll(d: Declared, states: seq<State>, steps: seq<Step>, i: nat, j: nat)
    requires Run(d, states, steps) && i < j < |steps|
    requires steps[i].ReplaceSucceeds? || steps[i] == Crash(true)
    ensures !steps[j].BeginCommit? && !steps[j].ReplaceSucceeds? && !steps[j].ReplaceFails? && steps[j] != Crash(true)
    ensures states[j].settled && states[j].installs == states[i + 1].installs
  {
    RunKeepsInv(d, states, steps, j);
    RunKeepsInv(d, states, steps, i);
    if j > i + 1 {
      ReplacedOnceForAll(d, states, steps, i, j - 1);
    }
  }

  // ----- What a session achieves -----

  /** An upload that can be installed is committed: its content is at the path, the row says so
      and the record is there. */
  lemma CommitSucceeds(d: Declared, states: seq<State>, steps: seq<Step>, content: Bytes)
    returns (states': seq<State>, steps': seq<Step>)
    requires Run(d, states, steps) && states[|states| - 1].handler.Idle?
    requires states[|states| - 1].session == Some(InProgress) && Matches(d, content)
    requires d.overwrite || states[|states| - 1].file.None?
    ensures Run(d, states', steps') && steps <= steps'
    ensures var s, t := states[|states| - 1], states'[|states'| - 1];
            t == s.(session := Some(Committed), record := true, file := Some(content),
                    installs := s.installs + [content], settled := true)
  {
    RunKeepsInv(d, states, steps, |states| - 1);
    states', steps' := Extend(d, states, steps, BeginCommit(content));
    states', steps' := Extend(d, states', steps', ReplaceSucceeds);
    states', steps' := Extend(d, states', steps', Finish(true));
  }

  /** A commit whose outcome was not recorded is taken up by a later Complete, exactly as long as
      what lies at the path has the declared size and checksum. */
  lemma UnrecordedCommitRecovers(d: Declared, states: seq<State>, steps: seq<Step>)
    requires Run(d, states, steps)
    requires var s := states[|states| - 1]; s.handler.Idle? && s.session == Some(Committing)
    ensures var s := states[|states| - 1];
            && !s.record
            && (Enabled(d, s, Recover) <==> s.file.Some? && Matches(d, s.file.value))
            && (Enabled(d, s, Recover) ==> Next(d, s, Recover) == s.(session := Some(Committed), record := true))
            && !exists content :: Enabled(d, s, BeginCommit(content))
  {
    RunKeepsInv(d, states, steps, |states| - 1);
  }

  /** Any session that is not committed can be aborted while no handler works on it; the file
      stays as it is. */
  lemma AbortEndsTheSession(d: Declared, states: seq<State>, steps: seq<Step>)
    requires Run(d, states, steps)
    requires var s := states[|states| - 1]; s.handler.Idle? && s.session.Some?
    ensures var s := states[|states| - 1];
            && (Enabled(d, s, Abort) <==> !s.record)
            && (Enabled(d, s, Abort) ==> Next(d, s, Abort) == s.(session := Some(Aborted)))
  {
    RunKeepsInv(d, states, steps, |states| - 1);
  }

  /** Cleaning up removes the row and then the record, at any phase, and leaves the file. */
  lemma CleanupRemovesTheSession(d: Declared, states: seq<State>, steps: seq<Step>)
    returns (states': seq<State>, steps': seq<Step>)
    requires Run(d, states, steps)
    requires var s := states[|states| - 1]; s.handler.Idle? && s.session.Some?
    ensures Run(d, states', steps') && steps' == steps + [RemoveSession] + [RemoveRecord(true)]
    ensures states'[|states'| - 1] == states[|states| - 1].(session := None, record := false)
  {
    states', steps' := Extend(d, states, steps, RemoveSession);
    states', steps' := Extend(d, states', steps', RemoveRecord(true));
  }

  /** Only an install or someone else changes the file, and an install leaves its content there. */
  lemma FileChanges(d: Declared, states: seq<State>, steps: seq<Step>, i: nat)
    requires Run(d, states, steps) && i < |steps| && !steps[i].Overwrite?
    ensures var s, t := states[i], states[i + 1];
            || (t.installs == s.installs && t.file == s.file)
            || (exists c :: Matches(d, c) && t.installs == s.installs + [c] && t.file == Some(c)
                            && (d.overwrite || s.file.None?))
  {
    RunKeepsInv(d, states, steps, i);
    var s, t := states[i], states[i + 1];
    assert t == Next(d, s, steps[i]);
    if t.installs != s.installs {
      assert Matches(d, s.handler.content) && t == Next(d, s, steps[i]);
    }
  }

  /** The declared content was at the path at some moment up to `i`. */
  ghost predicate WasInPlace(d: Declared, states: seq<State>, i: nat)
    requires i < |states|
  {
    exists k | 0 <= k <= i :: states[k].file.Some? && Matches(d, states[k].file.value)
  }

  /** No session is committed, on whatever path, unless its content was in place. */
  lemma {:induction false} CommittedWasInPlace(d: Declared, states: seq<State>, steps: seq<Step>, i: nat)
    requires Run(d, states, steps) && i < |states|
    ensures states[i].settled || states[i].record || states[i].session == Some(Committed) ==> WasInPlace(d, states, i)
  {
    RunKeepsInv(d, states, steps, i);
    if i > 0 {
      CommittedWasInPlace(d, states, steps, i - 1);
      RunKeepsInv(d, states, steps, i - 1);
      var s, t := states[i - 1], states[i];
      assert t == Next(d, s, steps[i - 1]);
      if steps[i - 1].Recover? {
        assert states[i - 1].file.Some? && Matches(d, states[i - 1].file.value);
      } else if t.settled && !s.settled {
        assert states[i].file.Some? && Matches(d, states[i].file.value);
      }
    }
  }
}

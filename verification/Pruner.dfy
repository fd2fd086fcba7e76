/** Version retention: bucketed windows, evenly spaced targets, greedy nearest choice. */
module Pruner {
  import opened GoArithmetic

  type VersionId = nat

  /** Times are unix milliseconds; `deletedAt` is 0 while the file lives. */
  datatype Version = Version(id: VersionId, timestamp: int, pinned: bool, deletedAt: int) {
    predicate IsOrphan() { deletedAt > 0 }
  }

  /** `keepFor` is a Go duration, in nanoseconds; a negative `maxCount` keeps everything. */
  datatype Bucket = Bucket(keepFor: int, maxCount: int)

  datatype Config = Config(buckets: seq<Bucket>, graceAfterDelete: int)

  function Milliseconds(duration: int): int {
    Quotient(duration, 1_000_000)
  }

  function Distance(a: int, b: int): (d: nat)
  {
    if a > b then a - b else b - a
  }

  // ----- Targets -----

  function TargetAt(start: int, end: int, count: int, i: nat): int
    requires count >= 1
  {
    if count == 1 then Quotient(start + end, 2) else start + i * ((end - start) / (count - 1))
  }

  function Targets(start: int, end: int, count: int): (ts: seq<int>)
    ensures |ts| == if count <= 0 || start >= end then 0 else count
    ensures forall i | 0 <= i < |ts| :: ts[i] == TargetAt(start, end, count, i)
  {
    if count <= 0 || start >= end then [] else seq(count, i requires 0 <= i => TargetAt(start, end, count, i))
  }

  method EvenlySpacedTargets(start: int, end: int, count: int) returns (out: seq<int>)
    ensures out == Targets(start, end, count)
  {
    if count <= 0 || start >= end {
      return [];
    }
    if count == 1 {
      return [Quotient(start + end, 2)];
    }
    out := [];
    var step := (end - start) / (count - 1);
    for i := 0 to count
      invariant |out| == i
      invariant forall k | 0 <= k < i :: out[k] == TargetAt(start, end, count, k)
    {
      out := out + [start + i * step];
    }
  }

  /** Consecutive targets ascend and all lie in the window. */
  lemma TargetInWindow(start: int, end: int, count: int, i: nat, j: nat)
    requires start < end && count >= 1 && i <= j < count
    ensures start <= TargetAt(start, end, count, i) <= TargetAt(start, end, count, j) <= end
  {
    if count > 1 {
      var step := (end - start) / (count - 1);
      StepFits(end - start, count - 1);
      ScaleMonotone(0, i, step);
      ScaleMonotone(i, j, step);
      ScaleMonotone(j, count - 1, step);
    }
  }

  lemma StepFits(length: int, n: int)
    requires length > 0 && n > 0
    ensures 0 <= length / n && n * (length / n) <= length < n * (length / n) + n
  {
    assert length == n * (length / n) + length % n;
  }

  /** Targets ascend, stay in the window, start at its older edge and, when there is more
      than one, stop less than count - 1 milliseconds short of its newer edge. */
  lemma TargetsSpanTheWindow(start: int, end: int, count: int)
    requires start < end && count >= 1
    ensures var ts := Targets(start, end, count);
            && (forall i, j | 0 <= i < j < |ts| :: ts[i] <= ts[j])
            && (forall i | 0 <= i < |ts| :: start <= ts[i] <= end)
            && (count > 1 ==> ts[0] == start && end - (count - 1) < ts[count - 1])
  {
    forall i, j | 0 <= i <= j < count
      ensures start <= TargetAt(start, end, count, i) <= TargetAt(start, end, count, j) <= end
    {
      TargetInWindow(start, end, count, i, j);
    }
    if count > 1 {
      StepFits(end - start, count - 1);
    }
  }

  // ----- Greedy choice -----

  /** The version not yet kept that lies nearest to `t`; the first one wins a tie. */
  function Nearest(window: seq<Version>, t: int, keep: set<VersionId>): seq<Version> {
    if window == [] then []
    else
      var v := window[|window| - 1];
      var best := Nearest(window[..|window| - 1], t, keep);
      if v.id in keep then best
      else if best == [] || Distance(v.timestamp, t) < Distance(best[0].timestamp, t) then [v]
      else best
  }

  /** `Nearest` is what it is named for: it finds nothing only when all is kept, and otherwise
      a candidate with no candidate closer and none equally close before it. */
  lemma {:induction false} NearestIsNearest(window: seq<Version>, t: int, keep: set<VersionId>)
    ensures |Nearest(window, t, keep)| <= 1
    ensures Nearest(window, t, keep) == [] <==> forall v | v in window :: v.id in keep
    ensures var best := Nearest(window, t, keep);
            best != [] ==> exists i :: IsNearestAt(window, t, keep, i) && window[i] == best[0]
  {
    if window != [] {
      var n := |window| - 1;
      var init, v := window[..n], window[n];
      NearestIsNearest(init, t, keep);
      var best := Nearest(init, t, keep);
      assert window == init + [v];
      if v.id !in keep && (best == [] || Distance(v.timestamp, t) < Distance(best[0].timestamp, t)) {
        if best != [] {
          var i :| IsNearestAt(init, t, keep, i) && init[i] == best[0];
        }
        assert forall j | 0 <= j < n && window[j].id !in keep ::
                 Distance(v.timestamp, t) < Distance(window[j].timestamp, t) by {
          assert forall j | 0 <= j < n :: window[j] == init[j] && init[j] in init;
        }
        assert IsNearestAt(window, t, keep, n);
      } else if best != [] {
        var i :| IsNearestAt(init, t, keep, i) && init[i] == best[0];
        assert forall j | 0 <= j < n :: window[j] == init[j];
        assert IsNearestAt(window, t, keep, i);
      }
    }
  }

  ghost predicate IsNearestAt(window: seq<Version>, t: int, keep: set<VersionId>, i: int) {
    && 0 <= i < |window| && window[i].id !in keep
    && forall j | 0 <= j < |window| && window[j].id !in keep ::
         && Distance(window[i].timestamp, t) <= Distance(window[j].timestamp, t)
         && (j < i ==> Distance(window[i].timestamp, t) < Distance(window[j].timestamp, t))
  }

  /** One version is kept per target, the nearest one left. */
  function PickTargets(window: seq<Version>, targets: seq<int>, keep: set<VersionId>): set<VersionId> {
    if targets == [] then keep
    else
      var best := Nearest(window, targets[0], keep);
      PickTargets(window, targets[1..], if best == [] then keep else keep + {best[0].id})
  }

  // ----- Buckets -----

  /** The versions a bucket looks at: not kept yet and inside its half-open window. */
  function InWindow(versions: seq<Version>, keep: set<VersionId>, older: int, newer: int): seq<Version> {
    if versions == [] then []
    else
      var v := versions[|versions| - 1];
      InWindow(versions[..|versions| - 1], keep, older, newer)
      + (if v.id !in keep && older < v.timestamp <= newer then [v] else [])
  }

  function Ids(versions: seq<Version>): set<VersionId> {
    set v | v in versions :: v.id
  }

  function KeepBucket(versions: seq<Version>, maxCount: int, older: int, newer: int, keep: set<VersionId>)
    : set<VersionId>
  {
    var window := InWindow(versions, keep, older, newer);
    if maxCount < 0 || |window| <= maxCount then keep + Ids(window)
    else PickTargets(window, Targets(older, newer, maxCount), keep)
  }

  function OlderEdge(b: Bucket, now: int): int {
    now - Milliseconds(b.keepFor)
  }

  /** Buckets in order, each window ending where the previous one began. */
  function KeepBuckets(versions: seq<Version>, buckets: seq<Bucket>, now: int, newer: int, keep: set<VersionId>)
    : set<VersionId>
  {
    if buckets == [] then keep
    else
      var older := OlderEdge(buckets[0], now);
      KeepBuckets(versions, buckets[1..], now, older, KeepBucket(versions, buckets[0].maxCount, older, newer, keep))
  }

  predicate BucketsSorted(bs: seq<Bucket>) {
    forall i, j | 0 <= i < j < |bs| :: bs[i].keepFor <= bs[j].keepFor
  }

  /** What sorting by retention may return: the buckets, shortest retention first, in any order
      among equal retentions. */
  predicate Arranged(buckets: seq<Bucket>, sorted: seq<Bucket>) {
    BucketsSorted(sorted) && multiset(sorted) == multiset(buckets)
  }

  /** The bucket-driven keepers, for buckets in a given order. */
  function KeepSet(versions: seq<Version>, sorted: seq<Bucket>, now: int): set<VersionId> {
    if sorted == [] then Ids(versions) else KeepBuckets(versions, sorted, now, now, {})
  }

  // ----- Decisions -----

  predicate Expired(v: Version, cfg: Config, now: int) {
    var grace := Milliseconds(cfg.graceAfterDelete);
    !(grace > 0 && now - v.deletedAt < grace)
  }

  function Orphans(versions: seq<Version>): seq<Version> {
    if versions == [] then []
    else Orphans(versions[..|versions| - 1])
         + (if versions[|versions| - 1].IsOrphan() then [versions[|versions| - 1]] else [])
  }

  function Live(versions: seq<Version>): seq<Version> {
    if versions == [] then []
    else Live(versions[..|versions| - 1])
         + (if versions[|versions| - 1].IsOrphan() then [] else [versions[|versions| - 1]])
  }

  /** Whether a version is deleted: orphans past their grace, and live versions neither pinned
      nor kept by a bucket. */
  predicate Doomed(v: Version, keep: set<VersionId>, cfg: Config, now: int) {
    if v.IsOrphan() then Expired(v, cfg, now) else !v.pinned && v.id !in keep
  }

  function DoomedAmong(versions: seq<Version>, keep: set<VersionId>, cfg: Config, now: int): seq<Version> {
    if versions == [] then []
    else DoomedAmong(versions[..|versions| - 1], keep, cfg, now)
         + (if Doomed(versions[|versions| - 1], keep, cfg, now) then [versions[|versions| - 1]] else [])
  }

  /** The versions to delete: doomed orphans, then doomed live versions. */
  function Decisions(versions: seq<Version>, cfg: Config, sorted: seq<Bucket>, now: int): seq<Version> {
    var keep := KeepSet(Live(versions), sorted, now);
    DoomedAmong(Orphans(versions), keep, cfg, now) + DoomedAmong(Live(versions), keep, cfg, now)
  }

  // ----- The loops -----

  method FindNearest(window: seq<Version>, t: int, keep: set<VersionId>) returns (bestIdx: int)
    ensures -1 <= bestIdx < |window|
    ensures Nearest(window, t, keep) == if bestIdx < 0 then [] else [window[bestIdx]]
  {
    bestIdx := -1;
    var bestDist: int := -1;
    for i := 0 to |window|
      invariant -1 <= bestIdx < i
      invariant Nearest(window[..i], t, keep) == if bestIdx < 0 then [] else [window[bestIdx]]
      invariant bestDist == if bestIdx < 0 then -1 else Distance(window[bestIdx].timestamp, t)
    {
      assert window[..i + 1][..i] == window[..i];
      if window[i].id in keep {
        continue;
      }
      var dist := Distance(window[i].timestamp, t);
      if bestDist < 0 || dist < bestDist {
        bestDist, bestIdx := dist, i;
      }
    }
    assert window[..|window|] == window;
  }

  method CollectWindow(versions: seq<Version>, keep: set<VersionId>, older: int, newer: int)
    returns (window: seq<Version>)
    ensures window == InWindow(versions, keep, older, newer)
  {
    window := [];
    for i := 0 to |versions|
      invariant window == InWindow(versions[..i], keep, older, newer)
    {
      assert versions[..i + 1][..i] == versions[..i];
      if versions[i].id !in keep && older < versions[i].timestamp <= newer {
        window := window + [versions[i]];
      }
    }
    assert versions[..|versions|] == versions;
  }

  method KeepOneBucket(versions: seq<Version>, maxCount: int, older: int, newer: int, keep0: set<VersionId>)
    returns (keep: set<VersionId>)
    ensures keep == KeepBucket(versions, maxCount, older, newer, keep0)
  {
    keep := keep0;
    var window := CollectWindow(versions, keep, older, newer);
    if maxCount < 0 || |window| <= maxCount {
      for i := 0 to |window|
        invariant keep == keep0 + Ids(window[..i])
      {
        assert window[..i + 1] == window[..i] + [window[i]];
        assert Ids(window[..i + 1]) == Ids(window[..i]) + {window[i].id};
        keep := keep + {window[i].id};
      }
      assert window[..|window|] == window;
    } else {
      var targets := EvenlySpacedTargets(older, newer, maxCount);
      for k := 0 to |targets|
        invariant PickTargets(window, targets[k..], keep) == PickTargets(window, targets, keep0)
      {
        assert targets[k..][1..] == targets[k + 1..];
        var bestIdx := FindNearest(window, targets[k], keep);
        if bestIdx >= 0 {
          keep := keep + {window[bestIdx].id};
        }
      }
    }
  }

  /** `sorted` is what the sort returned for these buckets. */
  method BucketKeepSet(versions: seq<Version>, buckets: seq<Bucket>, sorted: seq<Bucket>, now: int)
    returns (keep: set<VersionId>)
    requires Arranged(buckets, sorted)
    ensures keep == KeepSet(versions, sorted, now)
    ensures buckets == [] ==> keep == Ids(versions)
  {
    ArrangedLength(buckets, sorted);
    if |versions| == 0 {
      NothingToKeep(sorted, now, now);
      return {};
    }
    if |buckets| == 0 {
      return Ids(versions);
    }
    keep := KeepInOrder(versions, sorted, now);
  }

  method KeepInOrder(versions: seq<Version>, sorted: seq<Bucket>, now: int) returns (keep: set<VersionId>)
    ensures keep == KeepBuckets(versions, sorted, now, now, {})
  {
    keep := {};
    var newer := now;
    for i := 0 to |sorted|
      invariant KeepBuckets(versions, sorted[i..], now, newer, keep) == KeepBuckets(versions, sorted, now, now, {})
    {
      assert sorted[i..][1..] == sorted[i + 1..];
      var older := OlderEdge(sorted[i], now);
      keep := KeepOneBucket(versions, sorted[i].maxCount, older, newer, keep);
      newer := older;
    }
  }

  lemma ArrangedLength(buckets: seq<Bucket>, sorted: seq<Bucket>)
    requires Arranged(buckets, sorted)
    ensures |sorted| == |buckets|
  {
    assert |sorted| == |multiset(sorted)| == |multiset(buckets)| == |buckets|;
  }

  lemma {:induction false} NothingToKeep(buckets: seq<Bucket>, now: int, newer: int)
    ensures KeepBuckets([], buckets, now, newer, {}) == {}
  {
    if buckets != [] {
      var older := OlderEdge(buckets[0], now);
      PickFromNothing(Targets(older, newer, buckets[0].maxCount));
      NothingToKeep(buckets[1..], now, older);
    }
  }

  lemma {:induction false} PickFromNothing(targets: seq<int>)
    ensures PickTargets([], targets, {}) == {}
  {
    if targets != [] { PickFromNothing(targets[1..]); }
  }

  method SplitVersions(versions: seq<Version>) returns (live: seq<Version>, orphan: seq<Version>)
    ensures live == Live(versions) && orphan == Orphans(versions)
  {
    live, orphan := [], [];
    for i := 0 to |versions|
      invariant live == Live(versions[..i]) && orphan == Orphans(versions[..i])
    {
      assert versions[..i + 1][..i] == versions[..i];
      if versions[i].IsOrphan() {
        orphan := orphan + [versions[i]];
      } else {
        live := live + [versions[i]];
      }
    }
    assert versions[..|versions|] == versions;
  }

  method PruneDecisions(versions: seq<Version>, cfg: Config, sorted: seq<Bucket>, now: int)
    returns (toDelete: seq<Version>)
    requires Arranged(cfg.buckets, sorted)
    ensures toDelete == Decisions(versions, cfg, sorted, now)
    ensures cfg.buckets == [] ==> forall v | v in toDelete :: v.IsOrphan()
  {
    if |versions| == 0 {
      return [];
    }
    if cfg.buckets == [] {
      NoPolicyKeepsLive(versions, cfg, sorted, now);
    }
    var live, orphan := SplitVersions(versions);
    var keep := BucketKeepSet(live, cfg.buckets, sorted, now);
    LiveAndOrphans(versions);
    var expired := ExpiredOrphans(orphan, keep, cfg, now);
    var unkept := UnkeptLive(live, keep, cfg, now);
    return expired + unkept;
  }

  method ExpiredOrphans(orphan: seq<Version>, ghost keep: set<VersionId>, cfg: Config, now: int)
    returns (toDelete: seq<Version>)
    requires forall v | v in orphan :: v.IsOrphan()
    ensures toDelete == DoomedAmong(orphan, keep, cfg, now)
  {
    var graceMs := Milliseconds(cfg.graceAfterDelete);
    toDelete := [];
    for i := 0 to |orphan|
      invariant toDelete == DoomedAmong(orphan[..i], keep, cfg, now)
    {
      assert orphan[..i + 1] == orphan[..i] + [orphan[i]];
      DoomedSnoc(orphan[..i], orphan[i], keep, cfg, now);
      if graceMs > 0 && now - orphan[i].deletedAt < graceMs {
        continue;
      }
      toDelete := toDelete + [orphan[i]];
    }
    assert orphan[..|orphan|] == orphan;
  }

  method UnkeptLive(live: seq<Version>, keep: set<VersionId>, ghost cfg: Config, ghost now: int)
    returns (toDelete: seq<Version>)
    requires forall v | v in live :: !v.IsOrphan()
    ensures toDelete == DoomedAmong(live, keep, cfg, now)
  {
    toDelete := [];
    for i := 0 to |live|
      invariant toDelete == DoomedAmong(live[..i], keep, cfg, now)
    {
      assert live[..i + 1] == live[..i] + [live[i]];
      DoomedSnoc(live[..i], live[i], keep, cfg, now);
      if live[i].pinned {
        continue;
      }
      if live[i].id !in keep {
        toDelete := toDelete + [live[i]];
      }
    }
    assert live[..|live|] == live;
  }

  // ----- What a pass keeps and deletes -----

  /** Version ids are unique within a file. */
  ghost predicate Distinct(versions: seq<Version>) {
    forall i, j | 0 <= i < j < |versions| :: versions[i].id != versions[j].id
  }

  lemma SameId(versions: seq<Version>, v: Version, w: Version)
    requires Distinct(versions) && v in versions && w in versions && v.id == w.id
    ensures v == w
  {
  }

  lemma {:induction false} DoomedMembers(versions: seq<Version>, keep: set<VersionId>, cfg: Config, now: int)
    ensures forall v :: v in DoomedAmong(versions, keep, cfg, now) <==> v in versions && Doomed(v, keep, cfg, now)
  {
    if versions != [] {
      var n := |versions| - 1;
      assert versions == versions[..n] + [versions[n]];
      DoomedMembers(versions[..n], keep, cfg, now);
    }
  }

  lemma {:induction false} LiveAndOrphans(versions: seq<Version>)
    ensures forall v :: v in Live(versions) <==> v in versions && !v.IsOrphan()
    ensures forall v :: v in Orphans(versions) <==> v in versions && v.IsOrphan()
  {
    if versions != [] {
      var n := |versions| - 1;
      assert versions == versions[..n] + [versions[n]];
      LiveAndOrphans(versions[..n]);
    }
  }

  /** A version is deleted exactly when it is an orphan past its grace, or live, unpinned and
      not kept by a bucket. */
  lemma DecisionsMembers(versions: seq<Version>, cfg: Config, sorted: seq<Bucket>, now: int)
    ensures var keep := KeepSet(Live(versions), sorted, now);
            forall v :: v in Decisions(versions, cfg, sorted, now) <==> v in versions && Doomed(v, keep, cfg, now)
  {
    var keep := KeepSet(Live(versions), sorted, now);
    LiveAndOrphans(versions);
    DoomedMembers(Orphans(versions), keep, cfg, now);
    DoomedMembers(Live(versions), keep, cfg, now);
  }

  /** Pinned live versions and orphans within their grace are never deleted. */
  lemma ProtectedVersionsSurvive(versions: seq<Version>, cfg: Config, sorted: seq<Bucket>, now: int, v: Version)
    requires v in Decisions(versions, cfg, sorted, now)
    ensures v in versions
    ensures !(v.pinned && !v.IsOrphan())
    ensures !(v.IsOrphan() && Milliseconds(cfg.graceAfterDelete) > 0
              && now - v.deletedAt < Milliseconds(cfg.graceAfterDelete))
  {
    DecisionsMembers(versions, cfg, sorted, now);
  }

  /** What is left when the listed versions are removed. */
  function Remaining(versions: seq<Version>, deleted: seq<Version>): seq<Version> {
    if versions == [] then []
    else
      var n := |versions| - 1;
      Remaining(versions[..n], deleted) + (if versions[n] in deleted then [] else [versions[n]])
  }

  lemma {:induction false} DoomedCount(
    versions: seq<Version>, keep: set<VersionId>, cfg: Config, now: int, deleted: seq<Version>)
    requires forall v | v in versions :: v in deleted <==> Doomed(v, keep, cfg, now)
    ensures multiset(versions) ==
            multiset(Remaining(versions, deleted)) + multiset(DoomedAmong(versions, keep, cfg, now))
  {
    if versions != [] {
      var n := |versions| - 1;
      var init, v := versions[..n], versions[n];
      assert versions == init + [v];
      DoomedCount(init, keep, cfg, now, deleted);
      assert v in versions;
    }
  }

  /** Orphans and live versions are judged separately without loss. */
  lemma {:induction false} DoomedSplit(versions: seq<Version>, keep: set<VersionId>, cfg: Config, now: int)
    ensures multiset(DoomedAmong(versions, keep, cfg, now)) ==
            multiset(DoomedAmong(Orphans(versions), keep, cfg, now))
            + multiset(DoomedAmong(Live(versions), keep, cfg, now))
  {
    if versions != [] {
      var n := |versions| - 1;
      var init, v := versions[..n], versions[n];
      DoomedSplit(init, keep, cfg, now);
      if v.IsOrphan() {
        assert Orphans(versions) == Orphans(init) + [v] && Live(versions) == Live(init);
        DoomedSnoc(Orphans(init), v, keep, cfg, now);
      } else {
        assert Orphans(versions) == Orphans(init) && Live(versions) == Live(init) + [v];
        DoomedSnoc(Live(init), v, keep, cfg, now);
      }
    }
  }

  lemma DoomedSnoc(versions: seq<Version>, v: Version, keep: set<VersionId>, cfg: Config, now: int)
    ensures DoomedAmong(versions + [v], keep, cfg, now) ==
            DoomedAmong(versions, keep, cfg, now) + (if Doomed(v, keep, cfg, now) then [v] else [])
  {
    assert (versions + [v])[..|versions|] == versions;
  }

  /** Kept and deleted versions partition the input. */
  lemma DecisionsPartition(versions: seq<Version>, cfg: Config, sorted: seq<Bucket>, now: int)
    ensures var deleted := Decisions(versions, cfg, sorted, now);
            multiset(versions) == multiset(Remaining(versions, deleted)) + multiset(deleted)
  {
    var keep := KeepSet(Live(versions), sorted, now);
    DecisionsMembers(versions, cfg, sorted, now);
    DoomedCount(versions, keep, cfg, now, Decisions(versions, cfg, sorted, now));
    DoomedSplit(versions, keep, cfg, now);
  }

  // ----- Keeping only grows, and only from the window -----

  lemma {:induction false} NearestIsCandidate(window: seq<Version>, t: int, keep: set<VersionId>)
    ensures var best := Nearest(window, t, keep);
            if best == [] then Ids(window) <= keep
            else |best| == 1 && best[0] in window && best[0].id !in keep
  {
    if window != [] {
      var n := |window| - 1;
      assert window == window[..n] + [window[n]];
      NearestIsCandidate(window[..n], t, keep);
      assert Ids(window) == Ids(window[..n]) + {window[n].id};
    }
  }

  ghost function Min(a: int, b: int): int { if a <= b then a else b }

  /** Each target adds one new id from the window, until the window is used up. */
  lemma {:induction false} PickCount(window: seq<Version>, targets: seq<int>, keep: set<VersionId>)
    ensures var picked := PickTargets(window, targets, keep);
            && keep <= picked <= keep + Ids(window)
            && |picked - keep| == Min(|targets|, |Ids(window) - keep|)
    decreases |targets|
  {
    if targets == [] {
      assert keep - keep == {};
    } else {
      var best := Nearest(window, targets[0], keep);
      NearestIsCandidate(window, targets[0], keep);
      if best == [] {
        assert Ids(window) - keep == {};
        PickCount(window, targets[1..], keep);
      } else {
        var k := best[0].id;
        assert k in Ids(window) - keep;
        PickCount(window, targets[1..], keep + {k});
        CountOneMore(PickTargets(window, targets, keep), keep, k);
        CountOneMore(Ids(window), keep, k);
      }
    }
  }

  lemma CountOneMore(s: set<VersionId>, keep: set<VersionId>, k: VersionId)
    requires k in s && k !in keep
    ensures |s - keep| == |s - (keep + {k})| + 1
  {
    assert s - keep == (s - (keep + {k})) + {k};
  }

  lemma {:induction false} InWindowMembers(versions: seq<Version>, keep: set<VersionId>, older: int, newer: int)
    ensures forall v :: v in InWindow(versions, keep, older, newer) <==>
                        v in versions && v.id !in keep && older < v.timestamp <= newer
  {
    if versions != [] {
      var n := |versions| - 1;
      assert versions == versions[..n] + [versions[n]];
      InWindowMembers(versions[..n], keep, older, newer);
    }
  }

  lemma {:induction false} InWindowDistinct(versions: seq<Version>, keep: set<VersionId>, older: int, newer: int)
    requires Distinct(versions)
    ensures Distinct(InWindow(versions, keep, older, newer))
  {
    if versions != [] {
      var n := |versions| - 1;
      var init := versions[..n];
      InWindowDistinct(init, keep, older, newer);
      InWindowMembers(init, keep, older, newer);
      var w := InWindow(init, keep, older, newer);
      forall i | 0 <= i < |w| ensures w[i].id != versions[n].id {
        assert w[i] in init;
      }
    }
  }

  lemma {:induction false} DistinctIdsCount(versions: seq<Version>)
    requires Distinct(versions)
    ensures |Ids(versions)| == |versions|
  {
    if versions != [] {
      var n := |versions| - 1;
      assert versions == versions[..n] + [versions[n]];
      DistinctIdsCount(versions[..n]);
      assert Ids(versions) == Ids(versions[..n]) + {versions[n].id};
      assert versions[n].id !in Ids(versions[..n]);
    }
  }

  /** A bucket keeps its whole window, or exactly `maxCount` versions of it. */
  lemma KeepBucketQuota(versions: seq<Version>, maxCount: int, older: int, newer: int, keep: set<VersionId>)
    requires Distinct(versions)
    ensures var window := InWindow(versions, keep, older, newer);
            var kept := KeepBucket(versions, maxCount, older, newer, keep);
            && keep <= kept <= keep + Ids(window)
            && |kept - keep| == if maxCount < 0 then |window| else Min(maxCount, |window|)
  {
    var window := InWindow(versions, keep, older, newer);
    InWindowMembers(versions, keep, older, newer);
    InWindowDistinct(versions, keep, older, newer);
    DistinctIdsCount(window);
    assert Ids(window) - keep == Ids(window);
    if maxCount < 0 || |window| <= maxCount {
      assert keep + Ids(window) - keep == Ids(window);
    } else {
      assert window[0] in window;
      PickCount(window, Targets(older, newer, maxCount), keep);
    }
  }

  // ----- Idempotence -----

  function Restrict(versions: seq<Version>, ids: set<VersionId>): seq<Version> {
    if versions == [] then []
    else
      var n := |versions| - 1;
      Restrict(versions[..n], ids) + (if versions[n].id in ids then [versions[n]] else [])
  }

  lemma {:induction false} RestrictMembers(versions: seq<Version>, ids: set<VersionId>)
    ensures forall v :: v in Restrict(versions, ids) <==> v in versions && v.id in ids
    ensures |Restrict(versions, ids)| <= |versions|
    ensures Ids(versions) <= ids ==> Restrict(versions, ids) == versions
  {
    if versions != [] {
      var n := |versions| - 1;
      assert versions == versions[..n] + [versions[n]];
      RestrictMembers(versions[..n], ids);
      assert versions[n] in versions && Ids(versions[..n]) <= Ids(versions);
    }
  }

  lemma RestrictSnoc(versions: seq<Version>, v: Version, ids: set<VersionId>)
    ensures Restrict(versions + [v], ids) == Restrict(versions, ids) + (if v.id in ids then [v] else [])
  {
    assert (versions + [v])[..|versions|] == versions;
  }

  /** The nearest of fewer candidates is no nearer. */
  lemma {:induction false} NearestOfFewer(window: seq<Version>, t: int, keep: set<VersionId>, ids: set<VersionId>)
    ensures var best, best' := Nearest(window, t, keep), Nearest(Restrict(window, ids), t, keep);
            best' != [] ==> best != [] && Distance(best[0].timestamp, t) <= Distance(best'[0].timestamp, t)
  {
    if window != [] {
      var n := |window| - 1;
      var init, v := window[..n], window[n];
      NearestOfFewer(init, t, keep, ids);
      var r := Restrict(init, ids);
      assert (r + [v])[..|r|] == r && r + [] == r;
    }
  }

  /** The greedy choice is stable: dropping versions it did not choose does not change it. */
  lemma {:induction false} NearestRestricted(window: seq<Version>, t: int, keep: set<VersionId>, ids: set<VersionId>)
    requires var best := Nearest(window, t, keep); best != [] ==> best[0].id in ids
    ensures Nearest(Restrict(window, ids), t, keep) == Nearest(window, t, keep)
  {
    if window != [] {
      var n := |window| - 1;
      var init, v := window[..n], window[n];
      var r := Restrict(init, ids);
      assert (r + [v])[..|r|] == r && r + [] == r;
      NearestOfFewer(init, t, keep, ids);
      if Nearest(window, t, keep) == Nearest(init, t, keep) {
        NearestRestricted(init, t, keep, ids);
      }
    }
  }

  lemma {:induction false} PickRestricted(
    window: seq<Version>, targets: seq<int>, keep: set<VersionId>, ids: set<VersionId>)
    requires PickTargets(window, targets, keep) <= ids
    ensures PickTargets(Restrict(window, ids), targets, keep) == PickTargets(window, targets, keep)
    decreases |targets|
  {
    if targets != [] {
      var best := Nearest(window, targets[0], keep);
      var keep' := if best == [] then keep else keep + {best[0].id};
      PickCount(window, targets[1..], keep');
      NearestRestricted(window, targets[0], keep, ids);
      PickRestricted(window, targets[1..], keep', ids);
    }
  }

  lemma {:induction false} InWindowRestricted(
    versions: seq<Version>, keep: set<VersionId>, older: int, newer: int, ids: set<VersionId>)
    ensures InWindow(Restrict(versions, ids), keep, older, newer) ==
            Restrict(InWindow(versions, keep, older, newer), ids)
  {
    if versions != [] {
      var n := |versions| - 1;
      var init, v := versions[..n], versions[n];
      InWindowRestricted(init, keep, older, newer, ids);
      var r, w := Restrict(init, ids), InWindow(init, keep, older, newer);
      assert (r + [v])[..|r|] == r && r + [] == r;
      RestrictSnoc(w, v, ids);
      assert w + [] == w;
    }
  }

  /** A bucket that sees only survivors, its own choices among them, chooses the same. */
  lemma KeepBucketRestricted(versions: seq<Version>, maxCount: int, older: int, newer: int,
                             keep: set<VersionId>, ids: set<VersionId>)
    requires Distinct(versions)
    requires KeepBucket(versions, maxCount, older, newer, keep) <= ids
    ensures KeepBucket(Restrict(versions, ids), maxCount, older, newer, keep)
         == KeepBucket(versions, maxCount, older, newer, keep)
  {
    var window := InWindow(versions, keep, older, newer);
    var window' := Restrict(window, ids);
    InWindowRestricted(versions, keep, older, newer, ids);
    RestrictMembers(window, ids);
    if maxCount < 0 || |window| <= maxCount {
      assert window' == window;
    } else if |window'| <= maxCount {
      SmallRemainderIsTheChoice(versions, maxCount, older, newer, keep, ids);
    } else {
      PickRestricted(window, Targets(older, newer, maxCount), keep, ids);
    }
  }

  /** If no more than the quota is left of a window, what is left is what was chosen. */
  lemma SmallRemainderIsTheChoice(versions: seq<Version>, maxCount: int, older: int, newer: int,
                                  keep: set<VersionId>, ids: set<VersionId>)
    requires Distinct(versions)
    requires var kept := KeepBucket(versions, maxCount, older, newer, keep);
             var window := InWindow(versions, keep, older, newer);
             kept <= ids && 0 <= maxCount < |window| && |Restrict(window, ids)| <= maxCount
    ensures KeepBucket(versions, maxCount, older, newer, keep)
         == keep + Ids(Restrict(InWindow(versions, keep, older, newer), ids))
  {
    var kept := KeepBucket(versions, maxCount, older, newer, keep);
    var window := InWindow(versions, keep, older, newer);
    var rest := Ids(Restrict(window, ids));
    KeepBucketQuota(versions, maxCount, older, newer, keep);
    RestrictMembers(window, ids);
    IdsBound(Restrict(window, ids));
    forall k | k in kept - keep ensures k in rest {
      var v :| v in window && v.id == k;
    }
    SubsetOfSameSize(kept - keep, rest);
  }

  lemma {:induction false} IdsBound(versions: seq<Version>)
    ensures |Ids(versions)| <= |versions|
  {
    if versions != [] {
      var n := |versions| - 1;
      assert versions == versions[..n] + [versions[n]];
      IdsBound(versions[..n]);
      assert Ids(versions) == Ids(versions[..n]) + {versions[n].id};
    }
  }

  lemma SubsetOfSameSize(a: set<VersionId>, b: set<VersionId>)
    requires a <= b && |b| <= |a|
    ensures a == b
  {
    assert |b - a| == |b| - |a|;
  }

  lemma {:induction false} KeepBucketsGrows(
    versions: seq<Version>, buckets: seq<Bucket>, now: int, newer: int, keep: set<VersionId>)
    requires Distinct(versions)
    ensures keep <= KeepBuckets(versions, buckets, now, newer, keep) <= keep + Ids(versions)
    decreases |buckets|
  {
    if buckets != [] {
      var older := OlderEdge(buckets[0], now);
      KeepBucketQuota(versions, buckets[0].maxCount, older, newer, keep);
      InWindowMembers(versions, keep, older, newer);
      KeepBucketsGrows(versions, buckets[1..], now, older,
                       KeepBucket(versions, buckets[0].maxCount, older, newer, keep));
    }
  }

  lemma {:induction false} KeepBucketsRestricted(versions: seq<Version>, buckets: seq<Bucket>, now: int, newer: int,
                                                 keep: set<VersionId>, ids: set<VersionId>)
    requires Distinct(versions)
    requires KeepBuckets(versions, buckets, now, newer, keep) <= ids
    ensures KeepBuckets(Restrict(versions, ids), buckets, now, newer, keep)
         == KeepBuckets(versions, buckets, now, newer, keep)
    decreases |buckets|
  {
    if buckets != [] {
      var older := OlderEdge(buckets[0], now);
      var keep' := KeepBucket(versions, buckets[0].maxCount, older, newer, keep);
      KeepBucketsGrows(versions, buckets[1..], now, older, keep');
      KeepBucketRestricted(versions, buckets[0].maxCount, older, newer, keep, ids);
      KeepBucketsRestricted(versions, buckets[1..], now, older, keep', ids);
    }
  }

  lemma {:induction false} LiveDistinct(versions: seq<Version>)
    requires Distinct(versions)
    ensures Distinct(Live(versions))
  {
    if versions != [] {
      var n := |versions| - 1;
      var init := versions[..n];
      LiveDistinct(init);
      LiveAndOrphans(init);
      forall i | 0 <= i < |Live(init)| ensures Live(init)[i].id != versions[n].id {
        assert Live(init)[i] in init;
      }
    }
  }

  /** The live survivors are the live versions restricted to the surviving ids. */
  lemma {:induction false} LiveSurvivors(versions: seq<Version>, deleted: seq<Version>, ids: set<VersionId>)
    requires forall v | v in versions && !v.IsOrphan() :: v.id in ids <==> v !in deleted
    ensures Live(Remaining(versions, deleted)) == Restrict(Live(versions), ids)
  {
    if versions != [] {
      var n := |versions| - 1;
      var init, v := versions[..n], versions[n];
      assert v in versions;
      LiveSurvivors(init, deleted, ids);
      var r := Remaining(init, deleted);
      assert (r + [v])[..|r|] == r && r + [] == r;
      RestrictSnoc(Live(init), v, ids);
      assert Live(init) + [] == Live(init) && Live(r) + [] == Live(r);
    }
  }

  lemma {:induction false} RemainingMembers(versions: seq<Version>, deleted: seq<Version>)
    ensures forall v :: v in Remaining(versions, deleted) <==> v in versions && v !in deleted
  {
    if versions != [] {
      var n := |versions| - 1;
      assert versions == versions[..n] + [versions[n]];
      RemainingMembers(versions[..n], deleted);
    }
  }

  /** After a pass the buckets keep what they kept before. */
  lemma KeepSetIsStable(versions: seq<Version>, cfg: Config, sorted: seq<Bucket>, now: int)
    requires Distinct(versions)
    ensures var deleted := Decisions(versions, cfg, sorted, now);
            KeepSet(Live(Remaining(versions, deleted)), sorted, now) == KeepSet(Live(versions), sorted, now)
  {
    var live := Live(versions);
    var keep := KeepSet(live, sorted, now);
    var deleted := Decisions(versions, cfg, sorted, now);
    DecisionsMembers(versions, cfg, sorted, now);
    LiveAndOrphans(versions);
    LiveDistinct(versions);
    var ids := set v | v in live && (v.pinned || v.id in keep) :: v.id;
    forall v | v in versions && !v.IsOrphan() ensures v.id in ids <==> v !in deleted {
      if v.id in ids {
        var w :| w in live && (w.pinned || w.id in keep) && w.id == v.id;
        SameId(live, v, w);
      }
    }
    LiveSurvivors(versions, deleted, ids);
    if sorted == [] {
      assert Ids(live) <= ids;
      RestrictMembers(live, ids);
    } else {
      KeepBucketsGrows(live, sorted, now, now, {});
      assert keep <= ids;
      KeepBucketsRestricted(live, sorted, now, now, {}, ids);
    }
  }

  /** Pruning is idempotent: run again on the survivors at the same time with the same
      configuration and order of buckets, it deletes nothing. */
  lemma PruningIsIdempotent(versions: seq<Version>, cfg: Config, sorted: seq<Bucket>, now: int)
    requires Distinct(versions)
    ensures Decisions(Remaining(versions, Decisions(versions, cfg, sorted, now)), cfg, sorted, now) == []
  {
    var deleted := Decisions(versions, cfg, sorted, now);
    var rest := Remaining(versions, deleted);
    KeepSetIsStable(versions, cfg, sorted, now);
    DecisionsMembers(versions, cfg, sorted, now);
    RemainingMembers(versions, deleted);
    LiveAndOrphans(rest);
    var keep := KeepSet(Live(versions), sorted, now);
    NoneDoomed(Orphans(rest), keep, cfg, now);
    NoneDoomed(Live(rest), keep, cfg, now);
  }

  lemma {:induction false} NoneDoomed(versions: seq<Version>, keep: set<VersionId>, cfg: Config, now: int)
    requires forall v | v in versions :: !Doomed(v, keep, cfg, now)
    ensures DoomedAmong(versions, keep, cfg, now) == []
  {
    if versions != [] {
      assert versions[|versions| - 1] in versions;
      NoneDoomed(versions[..|versions| - 1], keep, cfg, now);
    }
  }

  // ----- Quotas -----

  /** A longer retention reaches further back. */
  lemma EdgesDescend(a: Bucket, b: Bucket, now: int)
    requires a.keepFor <= b.keepFor
    ensures OlderEdge(b, now) <= OlderEdge(a, now)
  {
    assert a.keepFor >= 0 ==> Milliseconds(a.keepFor) <= Milliseconds(b.keepFor);
  }

  function NewerEdge(buckets: seq<Bucket>, now: int, newer: int, i: nat): int
    requires i < |buckets|
  {
    if i == 0 then newer else OlderEdge(buckets[i - 1], now)
  }

  /** No timestamp falls into two bucket windows. */
  lemma WindowsAreDisjoint(buckets: seq<Bucket>, now: int, i: nat, j: nat, timestamp: int)
    requires BucketsSorted(buckets) && i < j < |buckets|
    ensures !(&& OlderEdge(buckets[i], now) < timestamp <= NewerEdge(buckets, now, now, i)
              && OlderEdge(buckets[j], now) < timestamp <= NewerEdge(buckets, now, now, j))
  {
    if i < j - 1 { EdgesDescend(buckets[i], buckets[j - 1], now); }
  }

  /** Buckets from `newer` on keep only versions at or before `newer`. */
  lemma {:induction false} BucketsReachBack(versions: seq<Version>, buckets: seq<Bucket>, now: int, newer: int,
                                            keep: set<VersionId>, v: Version)
    requires Distinct(versions) && BucketsSorted(buckets)
    requires buckets != [] ==> OlderEdge(buckets[0], now) <= newer
    requires v in versions && v.id !in keep && v.id in KeepBuckets(versions, buckets, now, newer, keep)
    ensures v.timestamp <= newer
    decreases |buckets|
  {
    if buckets != [] {
      var older := OlderEdge(buckets[0], now);
      var keep' := KeepBucket(versions, buckets[0].maxCount, older, newer, keep);
      if v.id in keep' {
        KeepBucketQuota(versions, buckets[0].maxCount, older, newer, keep);
        InWindowMembers(versions, keep, older, newer);
        var w :| w in InWindow(versions, keep, older, newer) && w.id == v.id;
        SameId(versions, v, w);
      } else {
        if |buckets| > 1 { EdgesDescend(buckets[0], buckets[1], now); }
        BucketsReachBack(versions, buckets[1..], now, older, keep', v);
      }
    }
  }

  ghost predicate AllAfter(versions: seq<Version>, keep: set<VersionId>, edge: int) {
    forall v | v in versions && v.id in keep :: edge < v.timestamp
  }

  /** The bucket at the head of the list gets exactly its quota of its window. */
  lemma HeadQuota(versions: seq<Version>, buckets: seq<Bucket>, now: int, newer: int, keep: set<VersionId>)
    requires Distinct(versions) && BucketsSorted(buckets) && buckets != []
    requires keep <= Ids(versions) && AllAfter(versions, keep, newer)
    ensures var older := OlderEdge(buckets[0], now);
            var window := Ids(InWindow(versions, {}, older, newer));
            var kept := KeepBuckets(versions, buckets, now, newer, keep);
            var max := buckets[0].maxCount;
            |kept * window| == if max < 0 then |window| else Min(max, |window|)
  {
    var older := OlderEdge(buckets[0], now);
    FreshWindow(versions, keep, older, newer);
    KeepBucketQuota(versions, buckets[0].maxCount, older, newer, keep);
    InWindowDistinct(versions, {}, older, newer);
    DistinctIdsCount(InWindow(versions, {}, older, newer));
    HeadKeepsItsOwn(versions, buckets, now, newer, keep);
  }

  /** Of the head bucket's window, what is kept in the end is what that bucket kept. */
  lemma HeadKeepsItsOwn(versions: seq<Version>, buckets: seq<Bucket>, now: int, newer: int, keep: set<VersionId>)
    requires Distinct(versions) && BucketsSorted(buckets) && buckets != []
    requires AllAfter(versions, keep, newer)
    ensures var older := OlderEdge(buckets[0], now);
            var kept := KeepBuckets(versions, buckets, now, newer, keep);
            var keep' := KeepBucket(versions, buckets[0].maxCount, older, newer, keep);
            kept * Ids(InWindow(versions, {}, older, newer)) == keep' - keep
  {
    var older := OlderEdge(buckets[0], now);
    var window := InWindow(versions, {}, older, newer);
    var keep' := KeepBucket(versions, buckets[0].maxCount, older, newer, keep);
    var kept := KeepBuckets(versions, buckets, now, newer, keep);
    FreshWindow(versions, keep, older, newer);
    KeepBucketQuota(versions, buckets[0].maxCount, older, newer, keep);
    InWindowMembers(versions, {}, older, newer);
    KeepBucketsGrows(versions, buckets[1..], now, older, keep');
    if |buckets| > 1 { EdgesDescend(buckets[0], buckets[1], now); }
    forall k | k in kept && k in Ids(window) ensures k in keep' - keep {
      var v :| v in window && v.id == k;
      if k !in keep' {
        BucketsReachBack(versions, buckets[1..], now, older, keep', v);
      }
    }
  }

  /** Nothing kept so far lies in the window, so excluding it changes nothing. */
  lemma {:induction false} FreshWindow(versions: seq<Version>, keep: set<VersionId>, older: int, newer: int)
    requires AllAfter(versions, keep, newer)
    ensures InWindow(versions, keep, older, newer) == InWindow(versions, {}, older, newer)
  {
    if versions != [] {
      var n := |versions| - 1;
      assert versions[n] in versions;
      FreshWindow(versions[..n], keep, older, newer);
    }
  }

  lemma BucketStaysInWindow(versions: seq<Version>, maxCount: int, older: int, newer: int, keep: set<VersionId>)
    requires Distinct(versions) && keep <= Ids(versions)
    requires AllAfter(versions, keep, newer) && (keep == {} || older <= newer)
    ensures var keep' := KeepBucket(versions, maxCount, older, newer, keep);
            keep' <= Ids(versions) && AllAfter(versions, keep', older)
  {
    var keep' := KeepBucket(versions, maxCount, older, newer, keep);
    KeepBucketQuota(versions, maxCount, older, newer, keep);
    InWindowMembers(versions, keep, older, newer);
    forall v | v in versions && v.id in keep' ensures older < v.timestamp {
      if v.id !in keep {
        var w :| w in InWindow(versions, keep, older, newer) && w.id == v.id;
        SameId(versions, v, w);
      }
    }
  }

  lemma {:induction false} QuotaFrom(versions: seq<Version>, buckets: seq<Bucket>, now: int, newer: int,
                                     keep: set<VersionId>, i: nat)
    requires Distinct(versions) && BucketsSorted(buckets) && i < |buckets|
    requires keep <= Ids(versions) && AllAfter(versions, keep, newer)
    requires keep == {} || OlderEdge(buckets[0], now) <= newer
    ensures var window := Ids(InWindow(versions, {}, OlderEdge(buckets[i], now), NewerEdge(buckets, now, newer, i)));
            var kept := KeepBuckets(versions, buckets, now, newer, keep);
            var max := buckets[i].maxCount;
            |kept * window| == if max < 0 then |window| else Min(max, |window|)
    decreases |buckets|
  {
    if i == 0 {
      HeadQuota(versions, buckets, now, newer, keep);
    } else {
      var older := OlderEdge(buckets[0], now);
      var keep' := KeepBucket(versions, buckets[0].maxCount, older, newer, keep);
      BucketStaysInWindow(versions, buckets[0].maxCount, older, newer, keep);
      EdgesDescend(buckets[0], buckets[1], now);
      QuotaFrom(versions, buckets[1..], now, older, keep', i - 1);
      assert buckets[1..][i - 1] == buckets[i];
    }
  }

  /** Each retention bucket keeps exactly its quota of the versions in its window, all of them
      when it has no limit, whatever the order among equal retentions. */
  lemma EveryBucketMeetsItsQuota(versions: seq<Version>, buckets: seq<Bucket>, sorted: seq<Bucket>, now: int, i: nat)
    requires Distinct(versions) && Arranged(buckets, sorted) && i < |sorted|
    ensures var b := sorted[i];
            var window := Ids(InWindow(versions, {}, OlderEdge(b, now), NewerEdge(sorted, now, now, i)));
            |KeepSet(versions, sorted, now) * window| == if b.maxCount < 0 then |window| else Min(b.maxCount, |window|)
  {
    QuotaFrom(versions, sorted, now, now, {}, i);
  }

  // ----- What becomes of each version -----

  /** A Go duration in whole milliseconds, the rest dropped. */
  lemma MillisecondsTruncate(d: int)
    ensures d >= 0 ==> Milliseconds(d) * 1_000_000 <= d < (Milliseconds(d) + 1) * 1_000_000
    ensures d < 0 ==> (Milliseconds(d) - 1) * 1_000_000 < d <= Milliseconds(d) * 1_000_000
  {
  }

  /** Candidates outside the window do not matter to the choice. */
  lemma {:induction false} NearestIgnores(window: seq<Version>, t: int, keep: set<VersionId>, more: set<VersionId>)
    requires keep !! Ids(window)
    ensures Nearest(window, t, keep + more) == Nearest(window, t, more)
  {
    if window != [] {
      var n := |window| - 1;
      assert window == window[..n] + [window[n]];
      assert Ids(window[..n]) <= Ids(window) && window[n].id in Ids(window);
      NearestIgnores(window[..n], t, keep, more);
    }
  }

  lemma {:induction false} PickIgnores(
    window: seq<Version>, targets: seq<int>, keep: set<VersionId>, more: set<VersionId>)
    requires keep !! Ids(window)
    ensures PickTargets(window, targets, keep + more) == keep + PickTargets(window, targets, more)
    decreases |targets|
  {
    if targets != [] {
      var best := Nearest(window, targets[0], more);
      NearestIgnores(window, targets[0], keep, more);
      if best == [] {
        PickIgnores(window, targets[1..], keep, more);
      } else {
        assert keep + more + {best[0].id} == keep + (more + {best[0].id});
        PickIgnores(window, targets[1..], keep, more + {best[0].id});
      }
    }
  }

  lemma AloneInWindow(versions: seq<Version>, maxCount: int, older: int, newer: int)
    ensures KeepBucket(versions, maxCount, older, newer, {}) <= Ids(InWindow(versions, {}, older, newer))
  {
    PickCount(InWindow(versions, {}, older, newer), Targets(older, newer, maxCount), {});
  }

  /** A bucket whose window holds nothing kept so far chooses as if it were alone. */
  lemma BucketChoosesAlone(versions: seq<Version>, maxCount: int, older: int, newer: int, keep: set<VersionId>)
    requires AllAfter(versions, keep, newer)
    ensures KeepBucket(versions, maxCount, older, newer, keep)
         == keep + KeepBucket(versions, maxCount, older, newer, {})
  {
    var window, none: set<VersionId> := InWindow(versions, {}, older, newer), {};
    FreshWindow(versions, keep, older, newer);
    WindowIsFresh(versions, older, newer, keep);
    PickIgnores(window, Targets(older, newer, maxCount), keep, none);
    assert keep + none == keep && none + Ids(window) == Ids(window);
  }

  lemma WindowIsFresh(versions: seq<Version>, older: int, newer: int, keep: set<VersionId>)
    requires AllAfter(versions, keep, newer)
    ensures keep !! Ids(InWindow(versions, {}, older, newer))
  {
    InWindowMembers(versions, {}, older, newer);
  }

  /** The versions in the window of the bucket at `i`. */
  function Window(versions: seq<Version>, sorted: seq<Bucket>, now: int, i: nat): seq<Version>
    requires i < |sorted|
  {
    InWindow(versions, {}, OlderEdge(sorted[i], now), NewerEdge(sorted, now, now, i))
  }

  /** What that bucket keeps of them. */
  function ChosenBy(versions: seq<Version>, sorted: seq<Bucket>, now: int, i: nat): set<VersionId>
    requires i < |sorted|
  {
    KeepBucket(versions, sorted[i].maxCount, OlderEdge(sorted[i], now), NewerEdge(sorted, now, now, i), {})
  }

  lemma {:induction false} KeptOfWindow(versions: seq<Version>, buckets: seq<Bucket>, now: int, newer: int,
                                        keep: set<VersionId>, i: nat)
    requires Distinct(versions) && BucketsSorted(buckets) && i < |buckets|
    requires keep <= Ids(versions) && AllAfter(versions, keep, newer)
    requires keep == {} || OlderEdge(buckets[0], now) <= newer
    ensures var older, newer' := OlderEdge(buckets[i], now), NewerEdge(buckets, now, newer, i);
            KeepBuckets(versions, buckets, now, newer, keep) * Ids(InWindow(versions, {}, older, newer'))
            == KeepBucket(versions, buckets[i].maxCount, older, newer', {})
    decreases |buckets|
  {
    var older := OlderEdge(buckets[0], now);
    if i == 0 {
      HeadKeepsItsOwn(versions, buckets, now, newer, keep);
      BucketChoosesAlone(versions, buckets[0].maxCount, older, newer, keep);
      AloneInWindow(versions, buckets[0].maxCount, older, newer);
      WindowIsFresh(versions, older, newer, keep);
    } else {
      BucketStaysInWindow(versions, buckets[0].maxCount, older, newer, keep);
      EdgesDescend(buckets[0], buckets[1], now);
      KeptOfWindow(versions, buckets[1..], now, older,
                   KeepBucket(versions, buckets[0].maxCount, older, newer, keep), i - 1);
      assert buckets[1..][i - 1] == buckets[i];
    }
  }

  /** Whatever the buckets keep beyond `keep` lies in one of their windows. */
  lemma {:induction false} KeptLiesInAWindow(versions: seq<Version>, buckets: seq<Bucket>, now: int, newer: int,
                                             keep: set<VersionId>, v: Version) returns (i: nat)
    requires Distinct(versions) && v in versions && v.id !in keep
    requires v.id in KeepBuckets(versions, buckets, now, newer, keep)
    ensures i < |buckets| && OlderEdge(buckets[i], now) < v.timestamp <= NewerEdge(buckets, now, newer, i)
    decreases |buckets|
  {
    var older := OlderEdge(buckets[0], now);
    var keep' := KeepBucket(versions, buckets[0].maxCount, older, newer, keep);
    if v.id in keep' {
      KeepBucketQuota(versions, buckets[0].maxCount, older, newer, keep);
      InWindowMembers(versions, keep, older, newer);
      var w :| w in InWindow(versions, keep, older, newer) && w.id == v.id;
      SameId(versions, v, w);
      i := 0;
    } else {
      var j := KeptLiesInAWindow(versions, buckets[1..], now, older, keep', v);
      i := j + 1;
      assert buckets[1..][j] == buckets[i];
    }
  }

  /** The bucket at `i` looks at the version, and chooses it. */
  predicate Chooses(versions: seq<Version>, sorted: seq<Bucket>, now: int, i: nat, v: Version) {
    && i < |sorted|
    && OlderEdge(sorted[i], now) < v.timestamp <= NewerEdge(sorted, now, now, i)
    && v.id in ChosenBy(versions, sorted, now, i)
  }

  lemma ChosenIffKept(versions: seq<Version>, sorted: seq<Bucket>, now: int, i: nat, v: Version)
    requires Distinct(versions) && BucketsSorted(sorted) && v in versions && i < |sorted|
    requires OlderEdge(sorted[i], now) < v.timestamp <= NewerEdge(sorted, now, now, i)
    ensures Chooses(versions, sorted, now, i, v) <==> v.id in KeepSet(versions, sorted, now)
  {
    var window := InWindow(versions, {}, OlderEdge(sorted[i], now), NewerEdge(sorted, now, now, i));
    InWindowMembers(versions, {}, OlderEdge(sorted[i], now), NewerEdge(sorted, now, now, i));
    assert v in window && v.id in Ids(window);
    KeptOfWindow(versions, sorted, now, now, {}, i);
  }

  /** With buckets, a version is kept exactly when the one bucket whose window it lies in chooses
      it, and each bucket chooses from its own window alone. */
  lemma KeptIffChosen(versions: seq<Version>, sorted: seq<Bucket>, now: int, v: Version)
    requires Distinct(versions) && BucketsSorted(sorted) && sorted != [] && v in versions
    ensures v.id in KeepSet(versions, sorted, now) <==> exists i :: Chooses(versions, sorted, now, i, v)
  {
    if v.id in KeepSet(versions, sorted, now) {
      var i := KeptLiesInAWindow(versions, sorted, now, now, {}, v);
      ChosenIffKept(versions, sorted, now, i, v);
    }
    if i :| Chooses(versions, sorted, now, i, v) {
      ChosenIffKept(versions, sorted, now, i, v);
    }
  }

  /** `t` is the target of number `k`: the middle of the window when there is one target, and
      otherwise `k` steps from its older edge, where count - 1 of the longest whole step fit. */
  ghost predicate IsTarget(older: int, newer: int, count: int, k: int, t: int) {
    if count == 1 then t == Quotient(older + newer, 2)
    else exists step :: t == older + k * step && (count - 1) * step <= newer - older < (count - 1) * (step + 1)
  }

  /** The picks take for each target in turn the version nearest to it that is not taken yet. */
  ghost predicate Greedy(window: seq<Version>, older: int, newer: int, picks: seq<Version>) {
    forall k | 0 <= k < |picks| :: PicksNearest(window, older, newer, picks, k)
  }

  ghost predicate PicksNearest(window: seq<Version>, older: int, newer: int, picks: seq<Version>, k: nat)
    requires k < |picks|
  {
    exists t :: IsTarget(older, newer, |picks|, k, t) && TakesNearest(window, t, picks[..k], picks[k])
  }

  lemma TargetsAreTargets(older: int, newer: int, count: int, k: nat)
    requires older < newer && k < count
    ensures IsTarget(older, newer, count, k, Targets(older, newer, count)[k])
  {
    if count > 1 {
      var step := (newer - older) / (count - 1);
      StepFits(newer - older, count - 1);
      assert (count - 1) * (step + 1) == (count - 1) * step + (count - 1);
    }
  }

  /** `v` is the version nearest to `t` that is not taken yet. */
  ghost predicate TakesNearest(window: seq<Version>, t: int, taken: seq<Version>, v: Version) {
    exists i :: IsNearestAt(window, t, Ids(taken), i) && window[i] == v
  }

  /** The picks behind `PickTargets`, in the order they are made. */
  function Picks(window: seq<Version>, targets: seq<int>): seq<Version> {
    if targets == [] then []
    else
      var n := |targets| - 1;
      var taken := Picks(window, targets[..n]);
      taken + Nearest(window, targets[n], Ids(taken))
  }

  lemma {:induction false} PickTargetsSnoc(window: seq<Version>, targets: seq<int>, t: int, keep: set<VersionId>)
    ensures var before := PickTargets(window, targets, keep);
            PickTargets(window, targets + [t], keep) == before + Ids(Nearest(window, t, before))
    decreases |targets|
  {
    if targets == [] {
      var best := Nearest(window, t, keep);
      NearestIsCandidate(window, t, keep);
      assert ([t])[1..] == [] && [] + [t] == [t];
      assert best != [] ==> Ids(best) == {best[0].id};
    } else {
      var best := Nearest(window, targets[0], keep);
      assert (targets + [t])[1..] == targets[1..] + [t];
      PickTargetsSnoc(window, targets[1..], t, if best == [] then keep else keep + {best[0].id});
    }
  }

  lemma {:induction false} PicksAreKept(window: seq<Version>, targets: seq<int>)
    ensures Ids(Picks(window, targets)) == PickTargets(window, targets, {})
  {
    if targets != [] {
      var n := |targets| - 1;
      var taken := Picks(window, targets[..n]);
      PicksAreKept(window, targets[..n]);
      PickTargetsSnoc(window, targets[..n], targets[n], {});
      assert targets == targets[..n] + [targets[n]];
      assert Ids(taken + Nearest(window, targets[n], Ids(taken)))
          == Ids(taken) + Ids(Nearest(window, targets[n], Ids(taken)));
    }
  }

  /** While candidates last there is one pick for each target, the nearest one left. */
  lemma {:induction false} EachTargetPicks(window: seq<Version>, targets: seq<int>)
    requires |targets| <= |Ids(window)|
    ensures var picks := Picks(window, targets);
            && |picks| == |targets|
            && forall k | 0 <= k < |targets| :: TakesNearest(window, targets[k], picks[..k], picks[k])
  {
    if targets != [] {
      var n := |targets| - 1;
      var init := targets[..n];
      EachTargetPicks(window, init);
      var taken := Picks(window, init);
      LastPick(window, targets[n], taken);
      var picks := Picks(window, targets);
      assert picks[..n] == taken;
      forall k | 0 <= k < n ensures TakesNearest(window, targets[k], picks[..k], picks[k]) {
        assert picks[..k] == taken[..k] && init[k] == targets[k];
      }
    }
  }

  lemma LastPick(window: seq<Version>, t: int, taken: seq<Version>)
    requires |taken| < |Ids(window)|
    ensures var best := Nearest(window, t, Ids(taken));
            |best| == 1 && TakesNearest(window, t, taken, best[0])
  {
    NearestIsNearest(window, t, Ids(taken));
    NearestIsCandidate(window, t, Ids(taken));
    IdsBound(taken);
    if Ids(window) <= Ids(taken) {
      SubsetIsNoLarger(Ids(window), Ids(taken));
    }
  }

  lemma SubsetIsNoLarger(a: set<VersionId>, b: set<VersionId>)
    requires a <= b
    ensures |a| <= |b|
  {
    assert |b - a| == |b| - |a|;
  }

  lemma PicksAreGreedy(window: seq<Version>, older: int, newer: int, picks: seq<Version>)
    requires older < newer && |Targets(older, newer, |picks|)| == |picks|
    requires forall k | 0 <= k < |picks| ::
               TakesNearest(window, Targets(older, newer, |picks|)[k], picks[..k], picks[k])
    ensures Greedy(window, older, newer, picks)
  {
    forall k | 0 <= k < |picks| ensures PicksNearest(window, older, newer, picks, k) {
      TargetsAreTargets(older, newer, |picks|, k);
    }
  }

  /** A bucket over its limit keeps the greedy nearest choices for its own targets; any other
      bucket keeps its whole window. */
  lemma BucketIsGreedy(versions: seq<Version>, sorted: seq<Bucket>, now: int, i: nat)
    requires Distinct(versions) && i < |sorted|
    ensures var max, window := sorted[i].maxCount, Window(versions, sorted, now, i);
            if 0 <= max < |window|
            then exists picks :: |picks| == max && ChosenBy(versions, sorted, now, i) == Ids(picks)
                                 && Greedy(window, OlderEdge(sorted[i], now), NewerEdge(sorted, now, now, i), picks)
            else ChosenBy(versions, sorted, now, i) == Ids(window)
  {
    var max, window := sorted[i].maxCount, Window(versions, sorted, now, i);
    var older, newer := OlderEdge(sorted[i], now), NewerEdge(sorted, now, now, i);
    if 0 <= max < |window| {
      assert window[0] in window;
      InWindowMembers(versions, {}, older, newer);
      InWindowDistinct(versions, {}, older, newer);
      DistinctIdsCount(window);
      var targets := Targets(older, newer, max);
      var picks := Picks(window, targets);
      PicksAreKept(window, targets);
      EachTargetPicks(window, targets);
      PicksAreGreedy(window, older, newer, picks);
    }
  }

  /** The fate of every version, with nothing left to the algorithm: an orphan goes once its
      grace is over, a live version only if it is unpinned, there is a policy, and the bucket
      whose window it lies in, if any, does not choose it. */
  lemma DeletedIff(versions: seq<Version>, cfg: Config, sorted: seq<Bucket>, now: int, v: Version)
    requires Distinct(versions) && Arranged(cfg.buckets, sorted) && v in versions
    ensures v in Decisions(versions, cfg, sorted, now) <==>
            if v.deletedAt > 0
            then Milliseconds(cfg.graceAfterDelete) <= 0 || v.deletedAt + Milliseconds(cfg.graceAfterDelete) <= now
            else && !v.pinned && cfg.buckets != []
                 && !exists i :: Chooses(Live(versions), sorted, now, i, v)
  {
    DecisionsMembers(versions, cfg, sorted, now);
    ArrangedLength(cfg.buckets, sorted);
    LiveAndOrphans(versions);
    LiveDistinct(versions);
    if v.deletedAt <= 0 && sorted != [] {
      KeptIffChosen(Live(versions), sorted, now, v);
    }
  }

  /** Without a retention policy no live version is ever deleted. */
  lemma NoPolicyKeepsLive(versions: seq<Version>, cfg: Config, sorted: seq<Bucket>, now: int)
    requires cfg.buckets == [] && Arranged(cfg.buckets, sorted)
    ensures forall v | v in Decisions(versions, cfg, sorted, now) :: v.IsOrphan()
  {
    DecisionsMembers(versions, cfg, sorted, now);
    ArrangedLength(cfg.buckets, sorted);
    LiveAndOrphans(versions);
  }

  /** With one, a live unpinned version outside every window is deleted. */
  lemma OutsideEveryWindowIsDeleted(versions: seq<Version>, cfg: Config, sorted: seq<Bucket>, now: int, v: Version)
    requires Distinct(versions) && Arranged(cfg.buckets, sorted) && cfg.buckets != []
    requires v in versions && !v.IsOrphan() && !v.pinned
    requires forall i | 0 <= i < |sorted| ::
               !(OlderEdge(sorted[i], now) < v.timestamp <= NewerEdge(sorted, now, now, i))
    ensures v in Decisions(versions, cfg, sorted, now)
  {
    DeletedIff(versions, cfg, sorted, now, v);
  }
}

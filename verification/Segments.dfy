/** Cutting an upload into segments and putting the segments back together. */
module Segments {
  import opened ByteStrings
  import opened GoArithmetic
  import opened Wrappers

  const MAX_INT64: int := 0x7fff_ffff_ffff_ffff

  datatype Segment = Segment(index: int, offset: int, size: int)

  /** The fields of an upload session that shape its segments. */
  datatype Session = Session(size: int, segmentSize: int, totalSegments: nat)

  /** 64-bit two's complement. */
  function Wrap64(x: int): int {
    (x + 0x8000_0000_0000_0000) % 0x1_0000_0000_0000_0000 - 0x8000_0000_0000_0000
  }

  function SegmentCount(size: int, segmentSize: int): int
    requires segmentSize > 0
  {
    Quotient(Wrap64(size + segmentSize - 1), segmentSize)
  }

  function SegmentAt(size: int, segmentSize: int, index: int): Segment {
    var offset := index * segmentSize;
    Segment(index, offset, if size - offset < segmentSize then size - offset else segmentSize)
  }

  /** The offset and size of one segment of a session, or nothing for an unusable index. */
  function ExpectedSegment(session: Session, index: int): Option<Segment> {
    if index < 0 || index >= session.totalSegments then None
    else
      var s := SegmentAt(session.size, session.segmentSize, index);
      if s.size <= 0 then None else Some(s)
  }

  /** An index is usable exactly when it is one of the session's and its segment is not empty;
      the segment then lies inside the upload. */
  lemma ExpectedIff(session: Session, index: int)
    requires session.segmentSize > 0
    ensures var e := ExpectedSegment(session, index);
            && (e.Some? <==> 0 <= index < session.totalSegments && index * session.segmentSize < session.size)
            && (e.Some? ==> e.value.index == index && e.value.offset == index * session.segmentSize
                            && 1 <= e.value.size <= session.segmentSize
                            && e.value.offset + e.value.size <= session.size)
  {
  }

  /** A plan, or the run-time panic of allocating a slice whose capacity is out of range. */
  datatype Plan = Planned(segments: seq<Segment>, total: int) | Panics

  /** `limit` is the largest capacity the allocator grants for a slice of segments. */
  method SegmentPlan(size: int, segmentSize: int, limit: nat) returns (plan: Plan)
    requires -MAX_INT64 - 1 <= size <= MAX_INT64 && -MAX_INT64 - 1 <= segmentSize <= MAX_INT64
    ensures plan == PlanOf(size, segmentSize, limit)
  {
    if size <= 0 || segmentSize <= 0 {
      return Planned([], 0);
    }
    var total := SegmentCount(size, segmentSize);
    if total < 0 || total > limit {
      return Panics;
    }
    var out := [];
    for i := 0 to total
      invariant out == seq(i, k => SegmentAt(size, segmentSize, k))
    {
      var offset := i * segmentSize;
      var partSize := segmentSize;
      var remaining := size - offset;
      if remaining < partSize {
        partSize := remaining;
      }
      out := out + [Segment(i, offset, partSize)];
    }
    return Planned(out, total);
  }

  function PlanOf(size: int, segmentSize: int, limit: nat): Plan {
    if size <= 0 || segmentSize <= 0 then Planned([], 0)
    else
      var total := SegmentCount(size, segmentSize);
      if total < 0 || total > limit then Panics
      else Planned(seq(total, k => SegmentAt(size, segmentSize, k)), total)
  }

  /** Non-empty pieces that follow each other from zero to `size` without gap or overlap. */
  predicate Tiles(segments: seq<Segment>, size: int) {
    && segments != [] && segments[0].offset == 0
    && (forall i | 0 <= i < |segments| :: segments[i].index == i && segments[i].size > 0)
    && (forall i | 0 < i < |segments| :: segments[i].offset == segments[i - 1].offset + segments[i - 1].size)
    && segments[|segments| - 1].offset + segments[|segments| - 1].size == size
  }

  // ----- Arithmetic -----

  lemma CountBounds(size: int, segmentSize: int)
    requires 0 < size && 0 < segmentSize && size + segmentSize - 1 <= MAX_INT64
    ensures var total := SegmentCount(size, segmentSize);
            total > 0 && (total - 1) * segmentSize < size <= total * segmentSize
  {
    var n := size + segmentSize - 1;
    assert Wrap64(n) == n;
    var total := n / segmentSize;
    assert n == total * segmentSize + n % segmentSize;
  }

  lemma CountOverflows(size: int, segmentSize: int)
    requires 0 < size <= MAX_INT64 && 0 < segmentSize <= MAX_INT64 && size + segmentSize - 1 > MAX_INT64
    ensures SegmentCount(size, segmentSize) <= 0
  {
    var n := size + segmentSize - 1;
    assert Wrap64(n) == n - 0x1_0000_0000_0000_0000;
    DivNonNegative(0x1_0000_0000_0000_0000 - n, segmentSize);
  }

  lemma DivNonNegative(a: int, b: int)
    requires a >= 0 && b > 0
    ensures a / b >= 0
  {
  }

  lemma OffsetStep(i: int, segmentSize: int)
    ensures (i + 1) * segmentSize == i * segmentSize + segmentSize
  {
  }

  // ----- Tiling -----

  /** Every segment before the last is full, and the last one ends at the size. */
  lemma SegmentSizes(size: int, segmentSize: int, index: int)
    requires 0 < size && 0 < segmentSize && size + segmentSize - 1 <= MAX_INT64
    requires 0 <= index < SegmentCount(size, segmentSize)
    ensures var s := SegmentAt(size, segmentSize, index);
            && 0 <= s.offset && 0 < s.size
            && s.offset + s.size ==
               if index + 1 == SegmentCount(size, segmentSize) then size else (index + 1) * segmentSize
  {
    var total := SegmentCount(size, segmentSize);
    CountBounds(size, segmentSize);
    ScaleMonotone(0, index, segmentSize);
    ScaleMonotone(index, total - 1, segmentSize);
    OffsetStep(index, segmentSize);
    if index + 1 < total {
      ScaleMonotone(index + 1, total - 1, segmentSize);
    }
  }

  lemma PlanTiles(size: int, segmentSize: int, limit: nat)
    requires 0 < size && 0 < segmentSize && size + segmentSize - 1 <= MAX_INT64
    requires SegmentCount(size, segmentSize) <= limit
    ensures PlanOf(size, segmentSize, limit).Planned? && Tiles(PlanOf(size, segmentSize, limit).segments, size)
  {
    CountBounds(size, segmentSize);
    var total := SegmentCount(size, segmentSize);
    var segments := PlanOf(size, segmentSize, limit).segments;
    forall i | 0 <= i < total
      ensures segments[i].index == i && segments[i].size > 0
      ensures i > 0 ==> segments[i].offset == segments[i - 1].offset + segments[i - 1].size
    {
      SegmentSizes(size, segmentSize, i);
      if i > 0 {
        SegmentSizes(size, segmentSize, i - 1);
      }
    }
    SegmentSizes(size, segmentSize, total - 1);
  }

  /** Every planned segment is as large as asked for, except that the last one may be shorter. */
  lemma PlanIsEven(size: int, segmentSize: int, limit: nat)
    requires 0 < size && 0 < segmentSize && size + segmentSize - 1 <= MAX_INT64
    requires SegmentCount(size, segmentSize) <= limit
    ensures var plan := PlanOf(size, segmentSize, limit);
            && plan.Planned? && plan.total == |plan.segments| > 0
            && (forall i | 0 <= i < plan.total - 1 :: plan.segments[i].size == segmentSize)
            && 1 <= plan.segments[plan.total - 1].size <= segmentSize
  {
    CountBounds(size, segmentSize);
    var total := SegmentCount(size, segmentSize);
    forall i | 0 <= i < total ensures SegmentAt(size, segmentSize, i).size ==
      (if i + 1 == total then size - i * segmentSize else segmentSize)
    {
      SegmentSizes(size, segmentSize, i);
      OffsetStep(i, segmentSize);
    }
    SegmentSizes(size, segmentSize, total - 1);
  }

  /** The plan tiles the upload exactly when it is not empty, the segment size is positive, the
      rounding-up sum fits 64 bits and the number of segments fits an allocation. */
  lemma PlanTilesIff(size: int, segmentSize: int, limit: nat)
    requires -MAX_INT64 - 1 <= size <= MAX_INT64 && -MAX_INT64 - 1 <= segmentSize <= MAX_INT64
    ensures PlanOf(size, segmentSize, limit).Planned? && Tiles(PlanOf(size, segmentSize, limit).segments, size) <==>
            && 0 < size && 0 < segmentSize && size + segmentSize - 1 <= MAX_INT64
            && SegmentCount(size, segmentSize) <= limit
  {
    if 0 < size && 0 < segmentSize {
      if size + segmentSize - 1 > MAX_INT64 {
        CountOverflows(size, segmentSize);
      } else if SegmentCount(size, segmentSize) <= limit {
        PlanTiles(size, segmentSize, limit);
      }
    }
  }

  /** Both ways to fail: the sum wraps around, or one-byte segments are too many to allocate. */
  lemma PlanFails(limit: nat)
    requires limit < MAX_INT64
    ensures !(PlanOf(MAX_INT64, 2, limit).Planned? && Tiles(PlanOf(MAX_INT64, 2, limit).segments, MAX_INT64))
    ensures PlanOf(MAX_INT64, 1, limit).Panics?
  {
    PlanTilesIff(MAX_INT64, 2, limit);
    assert SegmentCount(MAX_INT64, 1) == MAX_INT64;
  }

  /** What the plan announced for an index is what an uploaded segment is later checked against. */
  lemma PlanAgreesWithExpected(size: int, segmentSize: int, limit: nat, index: int)
    requires 0 < size && 0 < segmentSize && size + segmentSize - 1 <= MAX_INT64
    requires SegmentCount(size, segmentSize) <= limit
    ensures var plan := PlanOf(size, segmentSize, limit);
            && plan.Planned? && |plan.segments| == plan.total
            && ExpectedSegment(Session(size, segmentSize, plan.total), index) ==
               if 0 <= index < |plan.segments| then Some(plan.segments[index]) else None
  {
    CountBounds(size, segmentSize);
    if 0 <= index < SegmentCount(size, segmentSize) {
      SegmentSizes(size, segmentSize, index);
    }
  }

  // ----- Assembly -----

  type Path = Bytes

  /** A stored segment: its recorded size and checksum, and where its bytes are. */
  datatype Stored = Stored(size: int, checksum: Bytes, path: Path)

  /** A segment that is recorded, has the expected size on record and on disk, and hashes to its checksum. */
  predicate Intact(
    sha: Bytes -> Bytes, session: Session, segments: map<int, Stored>, files: map<Path, Bytes>, index: int)
  {
    && index in segments && segments[index].path in files
    && ExpectedSegment(session, index).Some?
    && segments[index].size == ExpectedSegment(session, index).value.size == |files[segments[index].path]|
    && sha(files[segments[index].path]) == segments[index].checksum
  }

  function Content(segments: map<int, Stored>, files: map<Path, Bytes>, index: int): Bytes {
    if index in segments && segments[index].path in files then files[segments[index].path] else []
  }

  /** The first `n` segment files in index order. */
  function Assembled(segments: map<int, Stored>, files: map<Path, Bytes>, n: nat): Bytes {
    if n == 0 then [] else Assembled(segments, files, n - 1) + Content(segments, files, n - 1)
  }

  /** Assembly succeeds exactly when every segment of the session is intact. */
  method Assemble(sha: Bytes -> Bytes, session: Session, segments: map<int, Stored>, files: map<Path, Bytes>)
    returns (out: Option<Bytes>)
    ensures out.Some? <==> forall i | 0 <= i < session.totalSegments :: Intact(sha, session, segments, files, i)
    ensures out.Some? ==> out.value == Assembled(segments, files, session.totalSegments)
  {
    var data: Bytes := [];
    for i := 0 to session.totalSegments
      invariant forall k | 0 <= k < i :: Intact(sha, session, segments, files, k)
      invariant data == Assembled(segments, files, i)
    {
      var expected := ExpectedSegment(session, i);
      if i !in segments || expected.None? || segments[i].size != expected.value.size || segments[i].path !in files {
        assert !Intact(sha, session, segments, files, i);
        return None;
      }
      var content := files[segments[i].path];
      if |content| != expected.value.size || sha(content) != segments[i].checksum {
        assert !Intact(sha, session, segments, files, i);
        return None;
      }
      data := data + content;
    }
    return Some(data);
  }

  /** A session as created, with every segment intact. */
  ghost predicate Ready(
    sha: Bytes -> Bytes, session: Session, segments: map<int, Stored>, files: map<Path, Bytes>)
  {
    && 0 < session.size && 0 < session.segmentSize && session.size + session.segmentSize - 1 <= MAX_INT64
    && session.totalSegments == SegmentCount(session.size, session.segmentSize)
    && forall i | 0 <= i < session.totalSegments :: Intact(sha, session, segments, files, i)
  }

  lemma {:induction false} AssembledLength(
    sha: Bytes -> Bytes, session: Session, segments: map<int, Stored>, files: map<Path, Bytes>, n: nat)
    requires Ready(sha, session, segments, files) && n <= session.totalSegments
    ensures |Assembled(segments, files, n)| ==
            if n == session.totalSegments then session.size else n * session.segmentSize
  {
    CountBounds(session.size, session.segmentSize);
    if n > 0 {
      AssembledLength(sha, session, segments, files, n - 1);
      SegmentSizes(session.size, session.segmentSize, n - 1);
      assert Intact(sha, session, segments, files, n - 1);
    }
  }

  lemma {:induction false} AssembledPrefix(segments: map<int, Stored>, files: map<Path, Bytes>, m: nat, n: nat)
    requires m <= n
    ensures Assembled(segments, files, m) <= Assembled(segments, files, n)
    decreases n
  {
    if m < n {
      AssembledPrefix(segments, files, m, n - 1);
    }
  }

  /** The assembled upload has the declared size, and each segment lies at its planned offset. */
  lemma AssembledIsTheUpload(
    sha: Bytes -> Bytes, session: Session, segments: map<int, Stored>, files: map<Path, Bytes>, index: nat)
    requires Ready(sha, session, segments, files) && index < session.totalSegments
    ensures var whole := Assembled(segments, files, session.totalSegments);
            var s := SegmentAt(session.size, session.segmentSize, index);
            && |whole| == session.size
            && 0 <= s.offset <= s.offset + s.size <= |whole|
            && whole[s.offset..s.offset + s.size] == Content(segments, files, index)
  {
    var s := SegmentAt(session.size, session.segmentSize, index);
    var before, upTo := Assembled(segments, files, index), Assembled(segments, files, index + 1);
    assert Intact(sha, session, segments, files, index);
    AssembledLength(sha, session, segments, files, index);
    AssembledLength(sha, session, segments, files, session.totalSegments);
    AssembledPrefix(segments, files, index + 1, session.totalSegments);
    assert upTo == before + Content(segments, files, index);
    var whole := Assembled(segments, files, session.totalSegments);
    assert whole[..|upTo|] == upTo;
    assert whole[|before|..|upTo|] == upTo[|before|..];
  }

  /** Where the first `n` segments end. */
  function EndOf(session: Session, n: nat): int {
    if n == session.totalSegments then session.size else n * session.segmentSize
  }

  lemma EndStep(session: Session, i: nat)
    requires 0 < session.size && 0 < session.segmentSize && session.size + session.segmentSize - 1 <= MAX_INT64
    requires session.totalSegments == SegmentCount(session.size, session.segmentSize) && i < session.totalSegments
    ensures var s := SegmentAt(session.size, session.segmentSize, i);
            s.offset == EndOf(session, i) && s.offset + s.size == EndOf(session, i + 1)
  {
    SegmentSizes(session.size, session.segmentSize, i);
  }

  /** Cutting a file by the plan and assembling the pieces gives the file back. */
  lemma AssemblyUndoesCutting(
    sha: Bytes -> Bytes, session: Session, segments: map<int, Stored>, files: map<Path, Bytes>, whole: Bytes)
    requires Ready(sha, session, segments, files) && |whole| == session.size
    requires forall i | 0 <= i < session.totalSegments :: IsPiece(session, whole, i, Content(segments, files, i))
    ensures Assembled(segments, files, session.totalSegments) == whole
  {
    CountBounds(session.size, session.segmentSize);
    AssembledSoFar(sha, session, segments, files, whole, session.totalSegments);
    assert whole[..|whole|] == whole;
  }

  lemma {:induction false} AssembledSoFar(
    sha: Bytes -> Bytes, session: Session, segments: map<int, Stored>, files: map<Path, Bytes>, whole: Bytes, n: nat)
    requires Ready(sha, session, segments, files) && |whole| == session.size && n <= session.totalSegments
    requires forall i | 0 <= i < session.totalSegments :: IsPiece(session, whole, i, Content(segments, files, i))
    ensures 0 <= EndOf(session, n) <= |whole| && Assembled(segments, files, n) == whole[..EndOf(session, n)]
  {
    if n == 0 {
      assert session.totalSegments > 0 by {
        CountBounds(session.size, session.segmentSize);
      }
    } else {
      AssembledSoFar(sha, session, segments, files, whole, n - 1);
      EndStep(session, n - 1);
      assert IsPiece(session, whole, n - 1, Content(segments, files, n - 1));
      JoinSlices(whole, EndOf(session, n - 1), EndOf(session, n));
    }
  }

  lemma JoinSlices(s: Bytes, m: int, n: int)
    requires 0 <= m <= n <= |s|
    ensures s[..m] + s[m..n] == s[..n]
  {
  }

  /** `piece` is the part of the file that segment `index` covers. */
  predicate IsPiece(session: Session, whole: Bytes, index: int, piece: Bytes) {
    var s := SegmentAt(session.size, session.segmentSize, index);
    0 <= s.offset <= s.offset + s.size <= |whole| && piece == whole[s.offset..s.offset + s.size]
  }

  lemma {:induction false} RangeBoundsSize(indexes: set<int>, total: nat)
    requires forall i | i in indexes :: 0 <= i < total
    ensures |indexes| <= total
  {
    if total == 0 {
      assert forall i :: i !in indexes;
    } else {
      RangeBoundsSize(indexes - {total - 1}, total - 1);
    }
  }

  /** Distinct in-range indexes, as many as there are segments, are all the indexes. */
  lemma {:induction false} FullCountCoversAll(indexes: set<int>, total: nat)
    requires (forall i | i in indexes :: 0 <= i < total) && |indexes| == total
    ensures forall i | 0 <= i < total :: i in indexes
  {
    if total > 0 {
      if total - 1 in indexes {
        FullCountCoversAll(indexes - {total - 1}, total - 1);
      } else {
        RangeBoundsSize(indexes, total - 1);
      }
    }
  }
}

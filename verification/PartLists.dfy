/** The part list of a CompleteMultipartUpload request (adapter/s3/multipart_complete.go): which
    lists are accepted against the uploaded parts, and which fault a refused one reports. */
module PartLists {
  import opened ByteStrings
  import IfMatch

  const MAX_PART_COUNT := 10000
  const MIN_PART_SIZE := 5 * 1024 * 1024

  /** One line of the request. */
  datatype Listed = Listed(number: int, etag: Bytes)

  /** One uploaded part: the digest it was recorded with, and its size. */
  datatype Part = Part(etag: Bytes, size: nat)

  datatype Fault = InvalidPart | InvalidPartOrder | EntityTooSmall

  datatype Validation = Valid(parts: seq<Part>) | Invalid(fault: Fault)

  function Fold(c: Byte): Byte {
    if 'A' as int <= c <= 'Z' as int then c + 32 else c
  }

  /** Equality up to the case of ASCII letters. */
  predicate EqualFold(a: Bytes, b: Bytes) {
    |a| == |b| && forall i | 0 <= i < |a| :: Fold(a[i]) == Fold(b[i])
  }

  predicate Letter(c: Byte) {
    'A' as int <= c <= 'Z' as int || 'a' as int <= c <= 'z' as int
  }

  /** Byte for byte the same, or the same letter in the other case. */
  lemma EqualFoldIff(a: Bytes, b: Bytes)
    ensures EqualFold(a, b) <==>
            && |a| == |b|
            && forall i | 0 <= i < |a| ::
                 a[i] == b[i] || (Letter(a[i]) && Letter(b[i]) && (a[i] == b[i] + 32 || b[i] == a[i] + 32))
  {
  }

  /** A list as written on the wire, its tags without surrounding space and quotes. */
  function Parsed(raw: seq<Listed>): (listed: seq<Listed>)
    ensures |listed| == |raw|
    ensures forall i | 0 <= i < |raw| ::
              listed[i] == Listed(raw[i].number, IfMatch.Unquote(TrimSpace(raw[i].etag)))
  {
    seq(|raw|, i requires 0 <= i < |raw| => Listed(raw[i].number, IfMatch.Unquote(TrimSpace(raw[i].etag))))
  }

  /** The lists that are completed: numbers in range and strictly ascending, each an uploaded
      part under the digest it was recorded with, and each but the last large enough. */
  predicate Accepted(listed: seq<Listed>, stored: map<int, Part>) {
    && (forall i | 0 <= i < |listed| :: 1 <= listed[i].number <= MAX_PART_COUNT)
    && (forall i, j | 0 <= i < j < |listed| :: listed[i].number < listed[j].number)
    && (forall i | 0 <= i < |listed| ::
          listed[i].number in stored && EqualFold(listed[i].etag, stored[listed[i].number].etag))
    && (forall i | 0 <= i < |listed| - 1 :: stored[listed[i].number].size >= MIN_PART_SIZE)
  }

  /** Line `i` can follow the line before it, and names an uploaded part. */
  predicate LineFits(listed: seq<Listed>, i: nat, stored: map<int, Part>)
    requires i < |listed|
  {
    && 1 <= listed[i].number <= MAX_PART_COUNT
    && (i > 0 ==> listed[i - 1].number < listed[i].number)
    && listed[i].number in stored && EqualFold(listed[i].etag, stored[listed[i].number].etag)
  }

  predicate LinesFit(listed: seq<Listed>, n: nat, stored: map<int, Part>)
    requires n <= |listed|
  {
    forall i | 0 <= i < n :: LineFits(listed, i, stored)
  }

  lemma {:induction false} FittingLinesAscend(listed: seq<Listed>, n: nat, stored: map<int, Part>, i: nat, j: nat)
    requires n <= |listed| && LinesFit(listed, n, stored) && i < j < n
    ensures listed[i].number < listed[j].number
  {
    assert LineFits(listed, j, stored);
    if i < j - 1 {
      FittingLinesAscend(listed, n, stored, i, j - 1);
    }
  }

  predicate LargeEnough(listed: seq<Listed>, stored: map<int, Part>)
    requires LinesFit(listed, |listed|, stored)
  {
    forall i | 0 <= i < |listed| - 1 :: LineFits(listed, i, stored) && stored[listed[i].number].size >= MIN_PART_SIZE
  }

  /** Comparing each line with the one before is enough. */
  lemma FittingLinesAreAccepted(listed: seq<Listed>, stored: map<int, Part>)
    ensures Accepted(listed, stored) <==> LinesFit(listed, |listed|, stored) && LargeEnough(listed, stored)
  {
    if LinesFit(listed, |listed|, stored) {
      assert forall i | 0 <= i < |listed| :: LineFits(listed, i, stored);
      forall i, j | 0 <= i < j < |listed| ensures listed[i].number < listed[j].number {
        FittingLinesAscend(listed, |listed|, stored, i, j);
      }
      forall i | 0 <= i < |listed|
        ensures 1 <= listed[i].number <= MAX_PART_COUNT && listed[i].number in stored
        ensures EqualFold(listed[i].etag, stored[listed[i].number].etag)
      {
        assert LineFits(listed, i, stored);
      }
      if LargeEnough(listed, stored) {
        forall i | 0 <= i < |listed| - 1 ensures stored[listed[i].number].size >= MIN_PART_SIZE {
          assert LineFits(listed, i, stored);
        }
      }
    }
  }

  /** The fault of the first line that does not fit. */
  ghost predicate LineFault(listed: seq<Listed>, i: nat, stored: map<int, Part>, fault: Fault)
    requires i < |listed|
  {
    && LinesFit(listed, i, stored) && !LineFits(listed, i, stored)
    && fault == (if 1 <= listed[i].number <= MAX_PART_COUNT && i > 0 && listed[i].number <= listed[i - 1].number
                 then InvalidPartOrder else InvalidPart)
  }

  /** The uploaded parts the first `n` lines name. */
  predicate Resolves(raw: seq<Listed>, n: nat, stored: map<int, Part>, out: seq<Part>)
    requires n <= |raw|
  {
    |out| == n && forall i | 0 <= i < n :: raw[i].number in stored && out[i] == stored[raw[i].number]
  }

  /** The first loop: every line fits and is resolved, or the first that does not is at fault. */
  method ResolveLines(raw: seq<Listed>, stored: map<int, Part>) returns (r: Validation)
    ensures r.Valid? ==> LinesFit(Parsed(raw), |raw|, stored) && Resolves(raw, |raw|, stored, r.parts)
    ensures r.Invalid? ==> exists i | 0 <= i < |raw| :: LineFault(Parsed(raw), i, stored, r.fault)
  {
    ghost var listed := Parsed(raw);
    var out, prev, n := [], 0, 0;
    while n < |raw|
      invariant 0 <= n <= |raw| && LinesFit(listed, n, stored) && Resolves(raw, n, stored, out)
      invariant prev == if n == 0 then 0 else listed[n - 1].number
    {
      var line := raw[n];
      if line.number < 1 || line.number > MAX_PART_COUNT {
        assert LineFault(listed, n, stored, InvalidPart);
        return Invalid(InvalidPart);
      }
      if line.number <= prev {
        assert LineFault(listed, n, stored, InvalidPartOrder);
        return Invalid(InvalidPartOrder);
      }
      prev := line.number;
      if line.number !in stored || !EqualFold(IfMatch.Unquote(TrimSpace(line.etag)), stored[line.number].etag) {
        assert LineFault(listed, n, stored, InvalidPart);
        return Invalid(InvalidPart);
      }
      assert LineFits(listed, n, stored);
      out, n := out + [stored[line.number]], n + 1;
    }
    return Valid(out);
  }

  /** The check of a request: it passes exactly the accepted lists and resolves them in order;
      otherwise it reports the first line at fault, or a part too small if every line fits. */
  method ValidateParts(raw: seq<Listed>, stored: map<int, Part>) returns (r: Validation)
    ensures r.Valid? <==> Accepted(Parsed(raw), stored)
    ensures r.Valid? ==> Resolves(raw, |raw|, stored, r.parts)
    ensures r == Invalid(EntityTooSmall) <==>
              LinesFit(Parsed(raw), |raw|, stored) && !LargeEnough(Parsed(raw), stored)
    ensures r.Invalid? && !r.fault.EntityTooSmall? ==>
              exists i | 0 <= i < |raw| :: LineFault(Parsed(raw), i, stored, r.fault)
  {
    ghost var listed := Parsed(raw);
    FittingLinesAreAccepted(listed, stored);
    r := ResolveLines(raw, stored);
    if r.Invalid? {
      return;
    }
    var k := 0;
    while k < |r.parts| - 1
      invariant 0 <= k <= |r.parts|
      invariant forall i | 0 <= i < k && i < |raw| - 1 :: r.parts[i].size >= MIN_PART_SIZE
    {
      if r.parts[k].size < MIN_PART_SIZE {
        assert listed[k].number == raw[k].number;
        return Invalid(EntityTooSmall);
      }
      k := k + 1;
    }
    SizesAreLargeEnough(raw, stored, r.parts);
  }

  lemma SizesAreLargeEnough(raw: seq<Listed>, stored: map<int, Part>, out: seq<Part>)
    requires LinesFit(Parsed(raw), |raw|, stored) && Resolves(raw, |raw|, stored, out)
    requires forall i | 0 <= i < |raw| - 1 :: out[i].size >= MIN_PART_SIZE
    ensures LargeEnough(Parsed(raw), stored)
  {
    var listed := Parsed(raw);
    forall i | 0 <= i < |listed| - 1
      ensures LineFits(listed, i, stored) && stored[listed[i].number].size >= MIN_PART_SIZE
    {
      assert out[i] == stored[raw[i].number];
    }
  }

  /** A digest may be listed bare or quoted. */
  lemma QuotedTagIsParsed(number: int, tag: Bytes)
    requires IfMatch.Opaque(tag) && !Space(tag[0]) && !Space(tag[|tag| - 1])
    ensures Parsed([Listed(number, IfMatch.Quoted(tag))]) == [Listed(number, tag)]
    ensures Parsed([Listed(number, tag)]) == [Listed(number, tag)]
  {
    var drop := (b: Byte) => Space(b);
    IfMatch.TrimKeeps(tag, drop);
    IfMatch.TrimKeeps(IfMatch.Quoted(tag), drop);
    IfMatch.UnquoteQuoted(tag);
  }
}

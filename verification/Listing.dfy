/** ListObjectsV2: one page of a grouped, cursor-driven scan, and the client loop that
    follows continuation tokens. */
module Listing {
  import opened ByteStrings
  import opened ObjectKeys
  import opened Sequences
  import opened UriEncoding
  import opened Wrappers

  // ----- Grouping -----

  /** The common prefix a key rolls up into: everything up to and including the first
      delimiter after the listing prefix. */
  function Group(key: Bytes, prefix: Bytes, delimiter: Bytes): (g: Option<Bytes>)
    ensures g.Some? ==> g.value <= key && g.value != [] && |prefix| + |delimiter| <= |g.value|
  {
    if delimiter == [] || !(prefix <= key) then None
    else
      var i := IndexFrom(key, delimiter, |prefix|);
      if i < 0 then None else Some(key[..i + |delimiter|])
  }

  /** `i` is where the delimiter first occurs behind the listing prefix. */
  ghost predicate FirstDelimiter(key: Bytes, prefix: Bytes, delimiter: Bytes, i: nat) {
    && delimiter != [] && prefix <= key && |prefix| <= i
    && OccursAt(key, delimiter, i)
    && forall j: nat | |prefix| <= j < i :: !OccursAt(key, delimiter, j)
  }

  /** No delimiter splits the key behind the listing prefix. */
  ghost predicate Undivided(key: Bytes, prefix: Bytes, delimiter: Bytes) {
    delimiter == [] || forall i: nat | |prefix| <= i :: !OccursAt(key, delimiter, i)
  }

  /** A key rolls up into exactly the text up to the end of the first delimiter behind the
      prefix, and into nothing exactly when there is no such delimiter. */
  lemma GroupIff(key: Bytes, prefix: Bytes, delimiter: Bytes)
    ensures forall g :: Group(key, prefix, delimiter) == Some(g) <==>
              exists i: nat :: FirstDelimiter(key, prefix, delimiter, i) && g == key[..i + |delimiter|]
    ensures Group(key, prefix, delimiter).None? <==> !(prefix <= key) || Undivided(key, prefix, delimiter)
  {
    if delimiter != [] && prefix <= key {
      var n := IndexFrom(key, delimiter, |prefix|);
      IndexFromIsFirst(key, delimiter, |prefix|);
      if n >= 0 {
        assert FirstDelimiter(key, prefix, delimiter, n);
        assert forall i: nat | FirstDelimiter(key, prefix, delimiter, i) :: i == n;
      }
    }
  }

  /** The first occurrence depends only on the text up to its end. */
  lemma {:induction false} IndexFromLocal(s: Bytes, t: Bytes, sub: Bytes, from: nat, n: nat)
    requires from <= |s| && IndexFrom(s, sub, from) >= 0 && n == IndexFrom(s, sub, from) + |sub|
    requires n <= |t| && forall k | 0 <= k < n :: s[k] == t[k]
    ensures IndexFrom(t, sub, from) == IndexFrom(s, sub, from)
    decreases |s| - from
  {
    assert OccursAt(s, sub, from) <==> OccursAt(t, sub, from);
    if !OccursAt(s, sub, from) {
      IndexFromLocal(s, t, sub, from + 1, n);
    }
  }

  /** Keys below a group belong to that group. */
  lemma GroupClaimsItsKeys(key: Bytes, other: Bytes, prefix: Bytes, delimiter: Bytes)
    requires Group(key, prefix, delimiter).Some? && Group(key, prefix, delimiter).value <= other
    ensures Group(other, prefix, delimiter) == Group(key, prefix, delimiter)
  {
    var g := Group(key, prefix, delimiter).value;
    assert forall k | 0 <= k < |g| :: key[k] == g[k] == other[k];
    IndexFromLocal(key, other, delimiter, |prefix|, |g|);
    assert prefix <= other;
    assert other[..|g|] == g;
  }

  // ----- The index as the listing sees it -----

  /** An index entry: a flat key, and whether its entity exists and is a regular file. */
  datatype Entry = Entry(key: Bytes, isFile: bool)

  datatype Query = Query(prefix: Bytes, delimiter: Bytes, encodeUrl: bool)

  /** What an entry contributes to a listing: nothing, its own key, or its group. */
  datatype Class = Hidden | Object | Rolled(group: Bytes)

  datatype Row = Row(key: Bytes, cls: Class)

  function Classify(e: Entry, q: Query): Class {
    if !ValidObjectKey(e.key) || !(q.prefix <= e.key) then Hidden
    else match Group(e.key, q.prefix, q.delimiter)
      case Some(g) => Rolled(g)
      case None => if e.isFile then Object else Hidden
  }

  /** An entry is listed under its own key exactly when it is a file whose key is valid, starts
      with the prefix and has no delimiter behind it; it is rolled up exactly when its key is
      valid and has one, file or not. */
  lemma ClassifyIff(e: Entry, q: Query)
    ensures Classify(e, q).Object? <==>
            e.isFile && ValidObjectKey(e.key) && q.prefix <= e.key && Undivided(e.key, q.prefix, q.delimiter)
    ensures forall g :: Classify(e, q) == Rolled(g) <==> RollsInto(e, q, g)
  {
    GroupIff(e.key, q.prefix, q.delimiter);
  }

  ghost predicate RollsInto(e: Entry, q: Query, g: Bytes) {
    && ValidObjectKey(e.key)
    && exists i: nat :: FirstDelimiter(e.key, q.prefix, q.delimiter, i) && g == e.key[..i + |q.delimiter|]
  }

  function Rows(index: seq<Entry>, q: Query): (rows: seq<Row>)
    ensures |rows| == |index|
    ensures forall i | 0 <= i < |index| :: rows[i] == Row(index[i].key, Classify(index[i], q))
  {
    seq(|index|, i requires 0 <= i < |index| => Row(index[i].key, Classify(index[i], q)))
  }

  /** Flat keys are stored once each, in byte order. */
  ghost predicate Ordered(index: seq<Entry>) {
    forall i, j | 0 <= i < j < |index| :: Less(index[i].key, index[j].key)
  }

  /** The facts about rows the listing rests on. */
  ghost predicate Coherent(rows: seq<Row>) {
    && (forall i, j | 0 <= i < j < |rows| :: Less(rows[i].key, rows[j].key))
    && (forall i | 0 <= i < |rows| && rows[i].cls.Object? :: rows[i].key != [])
    && (forall i | 0 <= i < |rows| && rows[i].cls.Rolled? ::
          rows[i].cls.group != [] && rows[i].cls.group <= rows[i].key)
    && (forall i, j | 0 <= i < |rows| && 0 <= j < |rows| && Claims(rows[i], rows[j]) :: rows[j].cls == rows[i].cls)
  }

  predicate Claims(r: Row, other: Row) {
    r.cls.Rolled? && !other.cls.Hidden? && r.cls.group <= other.key
  }

  lemma RowsAreCoherent(index: seq<Entry>, q: Query)
    requires Ordered(index)
    ensures Coherent(Rows(index, q))
  {
    var rows := Rows(index, q);
    forall i, j | 0 <= i < |rows| && 0 <= j < |rows| && Claims(rows[i], rows[j])
      ensures rows[j].cls == rows[i].cls
    {
      GroupClaimsItsKeys(index[i].key, index[j].key, q.prefix, q.delimiter);
    }
  }

  /** "Strictly after the cursor"; the empty cursor is before everything. */
  predicate After(cursor: Bytes, key: Bytes) {
    cursor == [] || Less(cursor, key)
  }

  /** The object keys one unbounded listing from `cursor` returns. */
  ghost function Objects(rows: seq<Row>, cursor: Bytes): set<Bytes> {
    set r | r in rows && r.cls.Object? && After(cursor, r.key) :: r.key
  }

  /** The common prefixes it returns. */
  ghost function Groups(rows: seq<Row>, cursor: Bytes): set<Bytes> {
    set r | r in rows && r.cls.Rolled? && After(cursor, r.key) && After(cursor, r.cls.group) :: r.cls.group
  }

  /** The object keys a listing from `cursor` is to return, said of the index itself. */
  ghost predicate ListedObject(index: seq<Entry>, q: Query, cursor: Bytes, key: Bytes) {
    && Entry(key, true) in index
    && ValidObjectKey(key) && q.prefix <= key && Undivided(key, q.prefix, q.delimiter)
    && After(cursor, key)
  }

  /** The common prefixes it is to return. */
  ghost predicate ListedGroup(index: seq<Entry>, q: Query, cursor: Bytes, g: Bytes) {
    exists e :: e in index && RollsInto(e, q, g) && After(cursor, e.key) && After(cursor, g)
  }

  lemma ObjectsAreListed(index: seq<Entry>, q: Query, cursor: Bytes, key: Bytes)
    ensures key in Objects(Rows(index, q), cursor) <==> ListedObject(index, q, cursor, key)
  {
    var rows := Rows(index, q);
    forall e ensures Classify(e, q).Object? <==>
      e.isFile && ValidObjectKey(e.key) && q.prefix <= e.key && Undivided(e.key, q.prefix, q.delimiter)
    {
      ClassifyIff(e, q);
    }
    if i :| 0 <= i < |index| && index[i] == Entry(key, true) {
      assert rows[i] in rows;
    }
  }

  lemma GroupsAreListed(index: seq<Entry>, q: Query, cursor: Bytes, g: Bytes)
    ensures g in Groups(Rows(index, q), cursor) <==> ListedGroup(index, q, cursor, g)
  {
    var rows := Rows(index, q);
    forall e ensures Classify(e, q) == Rolled(g) <==> RollsInto(e, q, g) {
      ClassifyIff(e, q);
    }
    if i :| 0 <= i < |index| && RollsInto(index[i], q, g) && After(cursor, index[i].key) && After(cursor, g) {
      assert rows[i] in rows && rows[i].cls == Rolled(g);
    }
  }

  /** A segment that a rolled-up group closes with a slash is a segment of the key. */
  lemma GroupSegments(e: Entry, q: Query, g: Bytes, n: nat, seg: Bytes)
    requires RollsInto(e, q, g) && n < |g| && g[n] == SLASH && seg in Split(g[..n], SLASH)
    ensures seg in Split(e.key, SLASH)
  {
    assert g <= e.key;
    assert e.key == g[..n] + [SLASH] + e.key[n + 1..];
    SplitAppend(g[..n], e.key[n + 1..], SLASH);
  }

  ghost predicate Ascending(keys: seq<Bytes>) {
    forall i, j | 0 <= i < j < |keys| :: Less(keys[i], keys[j])
  }

  ghost function SetOf(keys: seq<Bytes>): set<Bytes> {
    set k | k in keys
  }

  // ----- How groups and keys interleave -----

  /** Past a key with prefix `g`, a string without that prefix lies beyond every extension of `g`. */
  lemma BeyondPrefix(g: Bytes, y: Bytes, k: Bytes, z: Bytes)
    requires g <= y && Less(y, k) && !(g <= k)
    ensures Less(g + z, k)
  {
    var n := CommonLength(y, k);
    assert n < |g|;
    assert (g + z)[..n] == g[..n] == y[..n];
    LessAt(g + z, k, n);
  }

  lemma ObjectAfterGroup(rows: seq<Row>, i: nat, j: nat, z: Bytes)
    requires Coherent(rows) && i < j < |rows| && rows[i].cls.Rolled? && rows[j].cls.Object?
    ensures Less(rows[i].cls.group + z, rows[j].key)
  {
    assert !Claims(rows[i], rows[j]);
    BeyondPrefix(rows[i].cls.group, rows[i].key, rows[j].key, z);
  }

  lemma GroupAfterObject(rows: seq<Row>, i: nat, j: nat)
    requires Coherent(rows) && i < j < |rows| && rows[i].cls.Object? && rows[j].cls.Rolled?
    ensures Less(rows[i].key, rows[j].cls.group)
  {
    var g := rows[j].cls.group;
    assert !Claims(rows[j], rows[i]);
    LessTotal(rows[i].key, g);
    if AtMost(g, rows[i].key) {
      PrefixInterval(g, rows[i].key, rows[j].key);
    }
  }

  lemma GroupAfterGroup(rows: seq<Row>, i: nat, j: nat, z: Bytes)
    requires Coherent(rows) && i < j < |rows| && rows[i].cls.Rolled? && rows[j].cls.Rolled?
    requires rows[i].cls != rows[j].cls
    ensures Less(rows[i].cls.group + z, rows[j].cls.group)
  {
    var g, h := rows[i].cls.group, rows[j].cls.group;
    assert !Claims(rows[j], rows[i]) && !Claims(rows[i], rows[j]);
    LessTotal(rows[i].key, h);
    if AtMost(h, rows[i].key) {
      PrefixInterval(h, rows[i].key, rows[j].key);
      assert false;
    }
    assert !(g <= h);
    BeyondPrefix(g, rows[i].key, h, z);
  }

  // ----- One page -----

  function MaybeEncode(s: Bytes, encodeUrl: bool): Bytes {
    if encodeUrl then UriEncode(s, true) else s
  }

  /** Undoes the encoding applied for the response, as the next-cursor rule does. */
  function RawKey(s: Bytes, encodeUrl: bool): Bytes {
    if !encodeUrl then s
    else match PercentDecode(s)
      case Some(d) => d
      case None => s
  }

  function EncodeKeys(keys: seq<Bytes>, encodeUrl: bool): (r: seq<Bytes>)
    ensures |r| == |keys|
    ensures forall i | 0 <= i < |keys| :: r[i] == MaybeEncode(keys[i], encodeUrl)
  {
    seq(|keys|, i requires 0 <= i < |keys| => MaybeEncode(keys[i], encodeUrl))
  }

  function RawKeys(keys: seq<Bytes>, encodeUrl: bool): (r: seq<Bytes>)
    ensures |r| == |keys|
    ensures forall i | 0 <= i < |keys| :: r[i] == RawKey(keys[i], encodeUrl)
  {
    seq(|keys|, i requires 0 <= i < |keys| => RawKey(keys[i], encodeUrl))
  }

  lemma RawUndoesEncode(keys: seq<Bytes>, encodeUrl: bool)
    ensures RawKeys(EncodeKeys(keys, encodeUrl), encodeUrl) == keys
  {
    forall i | 0 <= i < |keys| ensures RawKey(MaybeEncode(keys[i], encodeUrl), encodeUrl) == keys[i] {
      DecodeUndoesEncode(keys[i], true);
    }
  }

  datatype Page = Page(contents: seq<Bytes>, commonPrefixes: seq<Bytes>, isTruncated: bool, next: Bytes)

  /** The cursor of the next page: the later of the last object key and the last group
      followed by 0xFF. */
  function NextCursor(contents: seq<Bytes>, commonPrefixes: seq<Bytes>, encodeUrl: bool): Bytes {
    var last: Bytes := if contents == [] then [] else RawKey(contents[|contents| - 1], encodeUrl);
    if commonPrefixes == [] then last
    else
      var candidate := RawKey(commonPrefixes[|commonPrefixes| - 1], encodeUrl) + [255];
      if Less(last, candidate) then candidate else last
  }

  /** The scan has taken everything the first `i` rows offer. */
  ghost predicate Taken(rows: seq<Row>, i: nat, cursor: Bytes, objects: seq<Bytes>, groups: seq<Bytes>)
    requires i <= |rows|
  {
    && Ascending(objects) && SetOf(objects) == Objects(rows[..i], cursor)
    && Ascending(groups) && SetOf(groups) == Groups(rows[..i], cursor)
  }

  lemma TakeNothing(rows: seq<Row>, i: nat, cursor: Bytes, objects: seq<Bytes>, groups: seq<Bytes>)
    requires i < |rows| && Taken(rows, i, cursor, objects, groups)
    requires var r := rows[i];
             || r.cls.Hidden?
             || !After(cursor, r.key)
             || (r.cls.Rolled? && (r.cls.group in groups || !After(cursor, r.cls.group)))
    ensures Taken(rows, i + 1, cursor, objects, groups)
  {
    assert rows[..i + 1] == rows[..i] + [rows[i]];
    assert Objects(rows[..i + 1], cursor) == Objects(rows[..i], cursor);
    assert Groups(rows[..i + 1], cursor) == Groups(rows[..i], cursor) by {
      assert forall g :: g in groups ==> g in SetOf(groups);
    }
  }

  lemma TakeObject(rows: seq<Row>, i: nat, cursor: Bytes, objects: seq<Bytes>, groups: seq<Bytes>)
    requires Coherent(rows) && i < |rows| && Taken(rows, i, cursor, objects, groups)
    requires rows[i].cls.Object? && After(cursor, rows[i].key)
    ensures Taken(rows, i + 1, cursor, objects + [rows[i].key], groups)
  {
    assert rows[..i + 1] == rows[..i] + [rows[i]];
    forall k | k in objects ensures Less(k, rows[i].key) {
      assert k in SetOf(objects);
      var r :| r in rows[..i] && r.key == k;
    }
    assert Objects(rows[..i + 1], cursor) == Objects(rows[..i], cursor) + {rows[i].key};
    assert SetOf(objects + [rows[i].key]) == SetOf(objects) + {rows[i].key};
    assert Groups(rows[..i + 1], cursor) == Groups(rows[..i], cursor);
  }

  lemma TakeGroup(rows: seq<Row>, i: nat, cursor: Bytes, objects: seq<Bytes>, groups: seq<Bytes>)
    requires Coherent(rows) && i < |rows| && Taken(rows, i, cursor, objects, groups)
    requires rows[i].cls.Rolled? && After(cursor, rows[i].key) && After(cursor, rows[i].cls.group)
    requires rows[i].cls.group !in groups
    ensures Taken(rows, i + 1, cursor, objects, groups + [rows[i].cls.group])
  {
    var g := rows[i].cls.group;
    assert rows[..i + 1] == rows[..i] + [rows[i]];
    forall h | h in groups ensures Less(h, g) {
      assert h in SetOf(groups);
      var r :| r in rows[..i] && r.cls.Rolled? && r.cls.group == h;
      var j :| 0 <= j < i && rows[j] == r;
      GroupAfterGroup(rows, j, i, []);
      assert h + [] == h;
    }
    assert Objects(rows[..i + 1], cursor) == Objects(rows[..i], cursor);
    assert SetOf(groups + [g]) == SetOf(groups) + {g};
    assert Groups(rows[..i + 1], cursor) == Groups(rows[..i], cursor) + {g};
  }

  /** Where a page stops: everything taken lies at or before `next`, everything still wanted
      lies after it, and something is still wanted. */
  ghost predicate Resumes(rows: seq<Row>, cursor: Bytes, objects: seq<Bytes>, groups: seq<Bytes>, next: Bytes) {
    && next != [] && After(cursor, next)
    && (forall k | k in objects :: AtMost(k, next))
    && (forall g | g in groups :: AtMost(g, next))
    && Objects(rows, cursor) == SetOf(objects) + Objects(rows, next)
    && Groups(rows, cursor) == SetOf(groups) + Groups(rows, next)
    && (Objects(rows, next) != {} || Groups(rows, next) != {})
  }

  /** Row `i` offers something the scan has not taken yet. */
  predicate Offers(r: Row, cursor: Bytes, groups: seq<Bytes>) {
    && After(cursor, r.key)
    && (r.cls.Object? || (r.cls.Rolled? && After(cursor, r.cls.group) && r.cls.group !in groups))
  }

  lemma TakenObjectRow(rows: seq<Row>, i: nat, cursor: Bytes, objects: seq<Bytes>, groups: seq<Bytes>, k: Bytes)
    returns (j: nat)
    requires i <= |rows| && Taken(rows, i, cursor, objects, groups) && k in objects
    ensures j < i && rows[j].cls.Object? && rows[j].key == k && After(cursor, k)
  {
    assert k in SetOf(objects);
    var r :| r in rows[..i] && r.cls.Object? && r.key == k && After(cursor, k);
    j :| 0 <= j < i && rows[j] == r;
  }

  lemma TakenGroupRow(rows: seq<Row>, i: nat, cursor: Bytes, objects: seq<Bytes>, groups: seq<Bytes>, g: Bytes)
    returns (j: nat)
    requires i <= |rows| && Taken(rows, i, cursor, objects, groups) && g in groups
    ensures j < i && rows[j].cls == Rolled(g) && After(cursor, g)
  {
    assert g in SetOf(groups);
    var r :| r in rows[..i] && r.cls == Rolled(g) && After(cursor, g);
    j :| 0 <= j < i && rows[j] == r;
  }

  lemma LessAtMost(a: Bytes, b: Bytes, c: Bytes)
    requires (Less(a, b) && AtMost(b, c)) || (AtMost(a, b) && Less(b, c))
    ensures Less(a, c)
  {
    if a != b && b != c { LessTransitive(a, b, c); }
  }

  /** Everything taken lies at or before the next cursor. */
  lemma NextCoversTaken(objects: seq<Bytes>, groups: seq<Bytes>)
    requires Ascending(objects) && Ascending(groups)
    ensures var next := NextCursor(objects, groups, false);
            && (forall k | k in objects :: AtMost(k, next))
            && (forall g | g in groups :: Less(g, next))
  {
    var next := NextCursor(objects, groups, false);
    var last: Bytes := if objects == [] then [] else objects[|objects| - 1];
    assert AtMost(last, next);
    forall k | k in objects ensures AtMost(k, next) {
      var j :| 0 <= j < |objects| && objects[j] == k;
      if j < |objects| - 1 { LessAtMost(k, last, next); }
    }
    forall g | g in groups ensures Less(g, next) {
      var j :| 0 <= j < |groups| && groups[j] == g;
      var h := groups[|groups| - 1];
      LessAt(h, h + [255], |h|);
      LessTotal(last, h + [255]);
      LessAtMost(h, h + [255], next);
      if j < |groups| - 1 { LessTransitive(g, h, next); }
    }
  }

  /** Later rows that still offer something lie beyond the next cursor. */
  lemma NextPrecedesRest(rows: seq<Row>, i: nat, cursor: Bytes, objects: seq<Bytes>, groups: seq<Bytes>, j: nat)
    requires Coherent(rows) && i <= j < |rows| && Taken(rows, i, cursor, objects, groups)
    requires Offers(rows[j], cursor, groups)
    ensures var next := NextCursor(objects, groups, false);
            Less(next, if rows[j].cls.Object? then rows[j].key else rows[j].cls.group)
  {
    var x := if rows[j].cls.Object? then rows[j].key else rows[j].cls.group;
    if objects == [] {
      LessAt([], x, 0);
    } else {
      var m := TakenObjectRow(rows, i, cursor, objects, groups, objects[|objects| - 1]);
      if rows[j].cls.Rolled? { GroupAfterObject(rows, m, j); }
    }
    if groups != [] {
      var g := groups[|groups| - 1];
      var m := TakenGroupRow(rows, i, cursor, objects, groups, g);
      if rows[j].cls.Object? {
        ObjectAfterGroup(rows, m, j, [255]);
      } else {
        GroupAfterGroup(rows, m, j, [255]);
      }
    }
  }

  /** The next cursor is past the current one. */
  lemma NextAdvances(rows: seq<Row>, i: nat, cursor: Bytes, objects: seq<Bytes>, groups: seq<Bytes>)
    requires Coherent(rows) && i <= |rows| && Taken(rows, i, cursor, objects, groups)
    requires objects != [] || groups != []
    ensures var next := NextCursor(objects, groups, false); next != [] && After(cursor, next)
  {
    NextCoversTaken(objects, groups);
    var next := NextCursor(objects, groups, false);
    if objects != [] {
      var k := objects[0];
      var m := TakenObjectRow(rows, i, cursor, objects, groups, k);
      assert AtMost(k, next);
      if cursor != [] { LessAtMost(cursor, k, next); }
    } else {
      var g := groups[0];
      var m := TakenGroupRow(rows, i, cursor, objects, groups, g);
      if cursor != [] { LessTransitive(cursor, g, next); }
    }
  }

  lemma PageResumes(rows: seq<Row>, i: nat, cursor: Bytes, objects: seq<Bytes>, groups: seq<Bytes>)
    requires Coherent(rows) && i < |rows| && Taken(rows, i, cursor, objects, groups)
    requires objects != [] || groups != []
    requires Offers(rows[i], cursor, groups)
    ensures Resumes(rows, cursor, objects, groups, NextCursor(objects, groups, false))
  {
    var next := NextCursor(objects, groups, false);
    NextCoversTaken(objects, groups);
    NextAdvances(rows, i, cursor, objects, groups);
    SplitObjects(rows, i, cursor, objects, groups, next);
    SplitGroups(rows, i, cursor, objects, groups, next);
    NextPrecedesRest(rows, i, cursor, objects, groups, i);
    var r := rows[i];
    assert r in rows;
    if r.cls.Object? {
      assert r.key in Objects(rows, next);
    } else {
      PrefixAtMost(r.cls.group, r.key);
      LessAtMost(next, r.cls.group, r.key);
      assert r.cls.group in Groups(rows, next);
    }
  }

  lemma PrefixAtMost(p: Bytes, s: Bytes)
    requires p <= s
    ensures AtMost(p, s)
  {
    if |p| < |s| { LessAt(p, s, |p|); }
  }

  lemma SplitObjects(rows: seq<Row>, i: nat, cursor: Bytes, objects: seq<Bytes>, groups: seq<Bytes>, next: Bytes)
    requires Coherent(rows) && i < |rows| && Taken(rows, i, cursor, objects, groups)
    requires next == NextCursor(objects, groups, false) && next != [] && After(cursor, next)
    ensures Objects(rows, cursor) == SetOf(objects) + Objects(rows, next)
  {
    forall k | k in Objects(rows, cursor) ensures k in SetOf(objects) + Objects(rows, next) {
      var r :| r in rows && r.cls.Object? && After(cursor, r.key) && r.key == k;
      var j :| 0 <= j < |rows| && rows[j] == r;
      if j < i {
        assert rows[..i][j] == r;
      } else {
        NextPrecedesRest(rows, i, cursor, objects, groups, j);
      }
    }
    forall k | k in SetOf(objects) + Objects(rows, next) ensures k in Objects(rows, cursor) {
      if k in objects {
        var j := TakenObjectRow(rows, i, cursor, objects, groups, k);
        assert rows[j] in rows;
      } else {
        var r :| r in rows && r.cls.Object? && After(next, r.key) && r.key == k;
        if cursor != [] { LessTransitive(cursor, next, k); }
      }
    }
  }

  lemma SplitGroups(rows: seq<Row>, i: nat, cursor: Bytes, objects: seq<Bytes>, groups: seq<Bytes>, next: Bytes)
    requires Coherent(rows) && i < |rows| && Taken(rows, i, cursor, objects, groups)
    requires next == NextCursor(objects, groups, false) && next != [] && After(cursor, next)
    ensures Groups(rows, cursor) == SetOf(groups) + Groups(rows, next)
  {
    forall g | g in Groups(rows, cursor) && g !in groups ensures g in Groups(rows, next) {
      UntakenGroupRemains(rows, i, cursor, objects, groups, next, g);
    }
    forall g | g in SetOf(groups) ensures g in Groups(rows, cursor) {
      var j := TakenGroupRow(rows, i, cursor, objects, groups, g);
      assert rows[j] in rows;
      GroupRowAfter(cursor, rows[j]);
    }
    forall g | g in Groups(rows, next) ensures g in Groups(rows, cursor) {
      var r :| r in rows && r.cls == Rolled(g) && After(next, r.key) && After(next, g);
      if cursor != [] {
        LessTransitive(cursor, next, g);
        LessTransitive(cursor, next, r.key);
      }
    }
  }

  /** A group past the cursor has all its keys past the cursor. */
  lemma GroupRowAfter(cursor: Bytes, r: Row)
    requires r.cls.Rolled? && r.cls.group <= r.key && After(cursor, r.cls.group)
    ensures After(cursor, r.key)
  {
    PrefixAtMost(r.cls.group, r.key);
    if cursor != [] { LessAtMost(cursor, r.cls.group, r.key); }
  }

  lemma UntakenGroupRemains(rows: seq<Row>, i: nat, cursor: Bytes, objects: seq<Bytes>, groups: seq<Bytes>,
                            next: Bytes, g: Bytes)
    requires Coherent(rows) && i < |rows| && Taken(rows, i, cursor, objects, groups)
    requires next == NextCursor(objects, groups, false)
    requires g in Groups(rows, cursor) && g !in groups
    ensures g in Groups(rows, next)
  {
    var r :| r in rows && r.cls == Rolled(g) && After(cursor, r.key) && After(cursor, g);
    var j :| 0 <= j < |rows| && rows[j] == r;
    assert g !in Groups(rows[..i], cursor);
    assert forall m | 0 <= m < i :: rows[m] in rows[..i];
    NextPrecedesRest(rows, i, cursor, objects, groups, j);
    GroupRowAfter(next, r);
  }

  /** What one page promises, whatever the encoding. */
  ghost predicate GoodPage(rows: seq<Row>, cursor: Bytes, maxKeys: nat, encodeUrl: bool, page: Page) {
    var objects, groups := RawKeys(page.contents, encodeUrl), RawKeys(page.commonPrefixes, encodeUrl);
    && page.contents == EncodeKeys(objects, encodeUrl)
    && page.commonPrefixes == EncodeKeys(groups, encodeUrl)
    && Ascending(objects) && Ascending(groups)
    && |page.contents| + |page.commonPrefixes| <= maxKeys
    && (if page.isTruncated then
          && |page.contents| + |page.commonPrefixes| == maxKeys
          && Resumes(rows, cursor, objects, groups, page.next)
        else
          SetOf(objects) == Objects(rows, cursor) && SetOf(groups) == Groups(rows, cursor))
  }

  lemma NextCursorIgnoresEncoding(objects: seq<Bytes>, groups: seq<Bytes>, encodeUrl: bool)
    ensures NextCursor(EncodeKeys(objects, encodeUrl), EncodeKeys(groups, encodeUrl), encodeUrl)
         == NextCursor(objects, groups, false)
  {
    RawUndoesEncode(objects, encodeUrl);
    RawUndoesEncode(groups, encodeUrl);
    if objects != [] {
      assert RawKeys(EncodeKeys(objects, encodeUrl), encodeUrl)[|objects| - 1] == objects[|objects| - 1];
    }
    if groups != [] {
      assert RawKeys(EncodeKeys(groups, encodeUrl), encodeUrl)[|groups| - 1] == groups[|groups| - 1];
    }
  }

  lemma EncodeSnocKey(keys: seq<Bytes>, k: Bytes, encodeUrl: bool)
    ensures EncodeKeys(keys + [k], encodeUrl) == EncodeKeys(keys, encodeUrl) + [MaybeEncode(k, encodeUrl)]
  {
  }

  /** The variables the scan callback updates. */
  datatype Scan = Scan(contents: seq<Bytes>, commonPrefixes: seq<Bytes>, prefixSet: set<Bytes>, truncated: bool) {
    function Total(): nat { |contents| + |commonPrefixes| }
  }

  /** The scan has returned exactly what the first `i` rows offer, within budget. */
  ghost predicate Scanned(rows: seq<Row>, i: nat, cursor: Bytes, maxKeys: nat, encodeUrl: bool, sc: Scan)
    requires i <= |rows|
  {
    var objects, groups := RawKeys(sc.contents, encodeUrl), RawKeys(sc.commonPrefixes, encodeUrl);
    && sc.contents == EncodeKeys(objects, encodeUrl)
    && sc.commonPrefixes == EncodeKeys(groups, encodeUrl)
    && sc.prefixSet == SetOf(groups)
    && sc.Total() <= maxKeys
    && Taken(rows, i, cursor, objects, groups)
  }

  lemma ScannedNothing(rows: seq<Row>, i: nat, cursor: Bytes, maxKeys: nat, encodeUrl: bool, sc: Scan)
    requires i < |rows| && Scanned(rows, i, cursor, maxKeys, encodeUrl, sc)
    requires var r := rows[i];
             || r.cls.Hidden?
             || !After(cursor, r.key)
             || (r.cls.Rolled? && (r.cls.group in sc.prefixSet || !After(cursor, r.cls.group)))
    ensures Scanned(rows, i + 1, cursor, maxKeys, encodeUrl, sc)
  {
    TakeNothing(rows, i, cursor, RawKeys(sc.contents, encodeUrl), RawKeys(sc.commonPrefixes, encodeUrl));
  }

  lemma ScannedObject(rows: seq<Row>, i: nat, cursor: Bytes, maxKeys: nat, encodeUrl: bool, sc: Scan)
    requires Coherent(rows) && i < |rows| && Scanned(rows, i, cursor, maxKeys, encodeUrl, sc)
    requires rows[i].cls.Object? && After(cursor, rows[i].key) && sc.Total() < maxKeys
    ensures Scanned(rows, i + 1, cursor, maxKeys, encodeUrl,
                    sc.(contents := sc.contents + [MaybeEncode(rows[i].key, encodeUrl)]))
  {
    var k := rows[i].key;
    var objects := RawKeys(sc.contents, encodeUrl);
    TakeObject(rows, i, cursor, objects, RawKeys(sc.commonPrefixes, encodeUrl));
    EncodeSnocKey(objects, k, encodeUrl);
    RawUndoesEncode(objects + [k], encodeUrl);
  }

  lemma ScannedGroup(rows: seq<Row>, i: nat, cursor: Bytes, maxKeys: nat, encodeUrl: bool, sc: Scan)
    requires Coherent(rows) && i < |rows| && Scanned(rows, i, cursor, maxKeys, encodeUrl, sc)
    requires rows[i].cls.Rolled? && After(cursor, rows[i].key) && After(cursor, rows[i].cls.group)
    requires rows[i].cls.group !in sc.prefixSet && sc.Total() < maxKeys
    ensures var g := rows[i].cls.group;
            Scanned(rows, i + 1, cursor, maxKeys, encodeUrl,
                    sc.(commonPrefixes := sc.commonPrefixes + [MaybeEncode(g, encodeUrl)],
                        prefixSet := sc.prefixSet + {g}))
  {
    var g := rows[i].cls.group;
    var groups := RawKeys(sc.commonPrefixes, encodeUrl);
    TakeGroup(rows, i, cursor, RawKeys(sc.contents, encodeUrl), groups);
    EncodeSnocKey(groups, g, encodeUrl);
    RawUndoesEncode(groups + [g], encodeUrl);
    assert SetOf(groups + [g]) == SetOf(groups) + {g};
  }

  /** The scan callback: one index entry at or after the prefix and past the cursor. */
  method Visit(e: Entry, q: Query, cursor: Bytes, maxKeys: nat, sc: Scan, ghost rows: seq<Row>, ghost i: nat)
    returns (sc': Scan)
    requires Coherent(rows) && i < |rows| && rows[i] == Row(e.key, Classify(e, q))
    requires Scanned(rows, i, cursor, maxKeys, q.encodeUrl, sc) && !sc.truncated
    requires q.prefix <= e.key && After(cursor, e.key)
    ensures !sc'.truncated ==> Scanned(rows, i + 1, cursor, maxKeys, q.encodeUrl, sc')
    ensures sc'.truncated ==>
              && sc' == sc.(truncated := true)
              && sc.Total() == maxKeys
              && Offers(rows[i], cursor, RawKeys(sc.commonPrefixes, q.encodeUrl))
  {
    if !ValidObjectKey(e.key) {
      ScannedNothing(rows, i, cursor, maxKeys, q.encodeUrl, sc);
      return sc;
    }
    var g := Group(e.key, q.prefix, q.delimiter);
    if g.Some? && cursor != [] && AtMost(g.value, cursor) {
      SkipPassedGroup(cursor, g.value);
      ScannedNothing(rows, i, cursor, maxKeys, q.encodeUrl, sc);
      return sc;
    }
    if g.Some? { NotPassedMeansAfter(cursor, g.value); }
    if sc.Total() >= maxKeys {
      // Peek: does a real next entry exist?
      if (g.Some? && g.value in sc.prefixSet) || (g.None? && !e.isFile) {
        ScannedNothing(rows, i, cursor, maxKeys, q.encodeUrl, sc);
        return sc;
      }
      return sc.(truncated := true);
    }
    if g.Some? {
      if g.value in sc.prefixSet {
        ScannedNothing(rows, i, cursor, maxKeys, q.encodeUrl, sc);
        return sc;
      }
      ScannedGroup(rows, i, cursor, maxKeys, q.encodeUrl, sc);
      return sc.(commonPrefixes := sc.commonPrefixes + [MaybeEncode(g.value, q.encodeUrl)],
                 prefixSet := sc.prefixSet + {g.value});
    }
    if !e.isFile {
      ScannedNothing(rows, i, cursor, maxKeys, q.encodeUrl, sc);
      return sc;
    }
    ScannedObject(rows, i, cursor, maxKeys, q.encodeUrl, sc);
    return sc.(contents := sc.contents + [MaybeEncode(e.key, q.encodeUrl)]);
  }

  /** One ListObjectsV2 request: the index is walked in key order from the cursor until one
      entry beyond the budget is seen. */
  method ListPage(index: seq<Entry>, q: Query, cursor: Bytes, maxKeys: nat) returns (page: Page)
    requires Ordered(index)
    ensures maxKeys > 0 ==> GoodPage(Rows(index, q), cursor, maxKeys, q.encodeUrl, page)
    ensures maxKeys == 0 ==> page == Page([], [], false, [])
    ensures page.isTruncated <==> page.next != []
  {
    if maxKeys == 0 {
      return Page([], [], false, []);
    }
    ghost var rows := Rows(index, q);
    RowsAreCoherent(index, q);
    var sc := Scan([], [], {}, false);
    var i := 0;
    while i < |index|
      invariant 0 <= i <= |index|
      invariant !sc.truncated && Scanned(rows, i, cursor, maxKeys, q.encodeUrl, sc)
    {
      if q.prefix <= index[i].key && After(cursor, index[i].key) {
        var sc' := Visit(index[i], q, cursor, maxKeys, sc, rows, i);
        if sc'.truncated {
          TruncatedPageIsGood(rows, i, cursor, maxKeys, q.encodeUrl, sc);
          return Page(sc.contents, sc.commonPrefixes, true,
                      NextCursor(sc.contents, sc.commonPrefixes, q.encodeUrl));
        }
        sc := sc';
      } else {
        ScannedNothing(rows, i, cursor, maxKeys, q.encodeUrl, sc);
      }
      i := i + 1;
    }
    assert rows[..i] == rows;
    page := Page(sc.contents, sc.commonPrefixes, false, []);
  }

  lemma TruncatedPageIsGood(rows: seq<Row>, i: nat, cursor: Bytes, maxKeys: nat, encodeUrl: bool, sc: Scan)
    requires Coherent(rows) && i < |rows| && Scanned(rows, i, cursor, maxKeys, encodeUrl, sc)
    requires sc.Total() == maxKeys > 0
    requires Offers(rows[i], cursor, RawKeys(sc.commonPrefixes, encodeUrl))
    ensures GoodPage(rows, cursor, maxKeys, encodeUrl,
                     Page(sc.contents, sc.commonPrefixes, true,
                          NextCursor(sc.contents, sc.commonPrefixes, encodeUrl)))
  {
    var objects, groups := RawKeys(sc.contents, encodeUrl), RawKeys(sc.commonPrefixes, encodeUrl);
    PageResumes(rows, i, cursor, objects, groups);
    NextCursorIgnoresEncoding(objects, groups, encodeUrl);
  }

  lemma SkipPassedGroup(cursor: Bytes, g: Bytes)
    requires cursor != [] && AtMost(g, cursor)
    ensures !After(cursor, g)
  {
    LessIrreflexive(g);
    if Less(g, cursor) { LessAsymmetric(g, cursor); }
  }

  lemma NotPassedMeansAfter(cursor: Bytes, g: Bytes)
    requires cursor == [] || !AtMost(g, cursor)
    ensures After(cursor, g)
  {
    LessTotal(g, cursor);
  }

  // ----- Following continuation tokens -----

  function AllContents(pages: seq<Page>): seq<Bytes> {
    if pages == [] then [] else AllContents(pages[..|pages| - 1]) + pages[|pages| - 1].contents
  }

  function AllPrefixes(pages: seq<Page>): seq<Bytes> {
    if pages == [] then [] else AllPrefixes(pages[..|pages| - 1]) + pages[|pages| - 1].commonPrefixes
  }

  /** `keys` lists `wanted` completely: in order, once each, in the requested encoding. */
  ghost predicate Lists(keys: seq<Bytes>, encodeUrl: bool, wanted: set<Bytes>) {
    var raw := RawKeys(keys, encodeUrl);
    keys == EncodeKeys(raw, encodeUrl) && Ascending(raw) && SetOf(raw) == wanted
  }

  /** `keys` lists what of `all` lies at or before `cursor`; `rest` is what lies after it. */
  ghost predicate ListsUpTo(keys: seq<Bytes>, encodeUrl: bool, all: set<Bytes>, rest: set<Bytes>, cursor: Bytes) {
    var raw := RawKeys(keys, encodeUrl);
    && keys == EncodeKeys(raw, encodeUrl) && Ascending(raw)
    && all == SetOf(raw) + rest
    && (forall k | k in raw :: AtMost(k, cursor))
    && (raw != [] ==> forall k | k in rest :: Less(cursor, k))
  }

  /** Appending a page's keys to those of the pages before it. */
  lemma AppendKeys(
    keys: seq<Bytes>, more: seq<Bytes>, encodeUrl: bool, all: set<Bytes>, rest: set<Bytes>, cursor: Bytes)
    requires ListsUpTo(keys, encodeUrl, all, rest, cursor)
    requires var raw := RawKeys(more, encodeUrl);
             more == EncodeKeys(raw, encodeUrl) && Ascending(raw) && SetOf(raw) <= rest
    ensures RawKeys(keys + more, encodeUrl) == RawKeys(keys, encodeUrl) + RawKeys(more, encodeUrl)
    ensures keys + more == EncodeKeys(RawKeys(keys + more, encodeUrl), encodeUrl)
    ensures Ascending(RawKeys(keys + more, encodeUrl))
    ensures SetOf(RawKeys(keys + more, encodeUrl)) == SetOf(RawKeys(keys, encodeUrl)) + SetOf(RawKeys(more, encodeUrl))
  {
    var a, b := RawKeys(keys, encodeUrl), RawKeys(more, encodeUrl);
    assert RawKeys(keys + more, encodeUrl) == a + b;
    forall i, j | 0 <= i < j < |a + b| ensures Less((a + b)[i], (a + b)[j]) {
      if i < |a| <= j {
        var y := b[j - |a|];
        assert y in SetOf(b) && a[i] in a;
        LessAtMost(a[i], cursor, y);
      }
    }
  }

  /** A truncated page moves the boundary to its next cursor. */
  lemma AppendFullPage(keys: seq<Bytes>, more: seq<Bytes>, encodeUrl: bool, all: set<Bytes>,
                       rest: set<Bytes>, cursor: Bytes, rest': set<Bytes>, next: Bytes)
    requires ListsUpTo(keys, encodeUrl, all, rest, cursor)
    requires var raw := RawKeys(more, encodeUrl);
             && more == EncodeKeys(raw, encodeUrl) && Ascending(raw)
             && rest == SetOf(raw) + rest'
             && forall k | k in raw :: AtMost(k, next)
    requires forall k | k in rest' :: Less(next, k)
    requires AtMost(cursor, next)
    ensures ListsUpTo(keys + more, encodeUrl, all, rest', next)
  {
    AppendKeys(keys, more, encodeUrl, all, rest, cursor);
    forall k | k in RawKeys(keys, encodeUrl) ensures AtMost(k, next) {
      if k != cursor && cursor != next { LessTransitive(k, cursor, next); }
    }
  }

  lemma RestIsAfter(rows: seq<Row>, cursor: Bytes)
    requires cursor != []
    ensures forall k | k in Objects(rows, cursor) :: Less(cursor, k)
    ensures forall g | g in Groups(rows, cursor) :: Less(cursor, g)
  {
  }

  /** What has been fetched so far is exactly what lies up to `cursor`. */
  ghost predicate FetchedUpTo(rows: seq<Row>, start: Bytes, cursor: Bytes, encodeUrl: bool,
                              contents: seq<Bytes>, prefixes: seq<Bytes>) {
    && ListsUpTo(contents, encodeUrl, Objects(rows, start), Objects(rows, cursor), cursor)
    && ListsUpTo(prefixes, encodeUrl, Groups(rows, start), Groups(rows, cursor), cursor)
  }

  predicate AllTruncated(pages: seq<Page>) {
    forall i | 0 <= i < |pages| :: pages[i].isTruncated
  }

  predicate OnlyLastNotTruncated(pages: seq<Page>) {
    pages != [] && forall i | 0 <= i < |pages| :: pages[i].isTruncated <==> i < |pages| - 1
  }

  predicate WithinBudget(pages: seq<Page>, maxKeys: nat) {
    forall i | 0 <= i < |pages| :: |pages[i].contents| + |pages[i].commonPrefixes| <= maxKeys
  }

  /** The pages fetched are a complete listing: within budget, only the last not truncated. */
  ghost predicate CompleteListing(rows: seq<Row>, start: Bytes, maxKeys: nat, encodeUrl: bool, pages: seq<Page>) {
    && OnlyLastNotTruncated(pages)
    && WithinBudget(pages, maxKeys)
    && Lists(AllContents(pages), encodeUrl, Objects(rows, start))
    && Lists(AllPrefixes(pages), encodeUrl, Groups(rows, start))
  }

  ghost function Remaining(rows: seq<Row>, cursor: Bytes): nat {
    |Objects(rows, cursor)| + |Groups(rows, cursor)|
  }

  /** Following one truncated page. */
  lemma FollowPage(rows: seq<Row>, start: Bytes, cursor: Bytes, maxKeys: nat, encodeUrl: bool,
                   contents: seq<Bytes>, prefixes: seq<Bytes>, page: Page)
    requires FetchedUpTo(rows, start, cursor, encodeUrl, contents, prefixes)
    requires maxKeys > 0 && GoodPage(rows, cursor, maxKeys, encodeUrl, page) && page.isTruncated
    ensures FetchedUpTo(rows, start, page.next, encodeUrl, contents + page.contents, prefixes + page.commonPrefixes)
  {
    RestIsAfter(rows, page.next);
    if cursor == [] { LessAt(cursor, page.next, 0); }
    AppendFullPage(contents, page.contents, encodeUrl, Objects(rows, start),
                   Objects(rows, cursor), cursor, Objects(rows, page.next), page.next);
    AppendFullPage(prefixes, page.commonPrefixes, encodeUrl, Groups(rows, start),
                   Groups(rows, cursor), cursor, Groups(rows, page.next), page.next);
  }

  lemma PageShrinksRemaining(rows: seq<Row>, cursor: Bytes, maxKeys: nat, encodeUrl: bool, page: Page)
    requires maxKeys > 0 && GoodPage(rows, cursor, maxKeys, encodeUrl, page) && page.isTruncated
    ensures Remaining(rows, page.next) < Remaining(rows, cursor)
  {
    var objects, groups := RawKeys(page.contents, encodeUrl), RawKeys(page.commonPrefixes, encodeUrl);
    RemainingShrinks(rows, cursor, objects, groups, page.next);
  }

  lemma RemainingShrinks(rows: seq<Row>, cursor: Bytes, objects: seq<Bytes>, groups: seq<Bytes>, next: Bytes)
    requires Resumes(rows, cursor, objects, groups, next) && |objects| + |groups| > 0
    ensures Remaining(rows, next) < Remaining(rows, cursor)
  {
    RestIsAfter(rows, next);
    LeftShrinks(objects, Objects(rows, cursor), Objects(rows, next), next);
    LeftShrinks(groups, Groups(rows, cursor), Groups(rows, next), next);
  }

  lemma LeftShrinks(taken: seq<Bytes>, before: set<Bytes>, after: set<Bytes>, next: Bytes)
    requires before == SetOf(taken) + after
    requires (forall k | k in taken :: AtMost(k, next)) && forall k | k in after :: Less(next, k)
    ensures |after| <= |before| && (taken != [] ==> |after| < |before|)
  {
    SubsetSize(after, before);
    if taken != [] {
      var k := taken[0];
      if k in after { LessAtMost(next, k, next); LessIrreflexive(next); }
      assert k in SetOf(taken);
      SubsetSize(after, before - {k});
    }
  }

  /** The last page completes both lists. */
  lemma FollowLastPage(rows: seq<Row>, start: Bytes, cursor: Bytes, maxKeys: nat, encodeUrl: bool,
                       contents: seq<Bytes>, prefixes: seq<Bytes>, page: Page)
    requires FetchedUpTo(rows, start, cursor, encodeUrl, contents, prefixes)
    requires GoodPage(rows, cursor, maxKeys, encodeUrl, page) && !page.isTruncated
    ensures Lists(contents + page.contents, encodeUrl, Objects(rows, start))
    ensures Lists(prefixes + page.commonPrefixes, encodeUrl, Groups(rows, start))
  {
    AppendKeys(contents, page.contents, encodeUrl, Objects(rows, start), Objects(rows, cursor), cursor);
    AppendKeys(prefixes, page.commonPrefixes, encodeUrl, Groups(rows, start), Groups(rows, cursor), cursor);
  }

  lemma AddPage(pages: seq<Page>, page: Page, maxKeys: nat)
    requires AllTruncated(pages) && WithinBudget(pages, maxKeys)
    requires |page.contents| + |page.commonPrefixes| <= maxKeys
    ensures AllContents(pages + [page]) == AllContents(pages) + page.contents
    ensures AllPrefixes(pages + [page]) == AllPrefixes(pages) + page.commonPrefixes
    ensures WithinBudget(pages + [page], maxKeys)
    ensures if page.isTruncated then AllTruncated(pages + [page]) else OnlyLastNotTruncated(pages + [page])
  {
    assert (pages + [page])[..|pages|] == pages;
  }

  /** A client that follows continuation tokens until a page is not truncated: it stops, every
      page stays within budget, and the pages together are one unbounded listing with no
      entry lost or repeated. */
  method FollowTokens(index: seq<Entry>, q: Query, startAfter: Bytes, maxKeys: nat) returns (pages: seq<Page>)
    requires Ordered(index) && maxKeys > 0
    ensures CompleteListing(Rows(index, q), startAfter, maxKeys, q.encodeUrl, pages)
    ensures forall k :: k in RawKeys(AllContents(pages), q.encodeUrl) <==> ListedObject(index, q, startAfter, k)
    ensures forall g :: g in RawKeys(AllPrefixes(pages), q.encodeUrl) <==> ListedGroup(index, q, startAfter, g)
  {
    ghost var rows := Rows(index, q);
    var cursor := startAfter;
    pages := [];
    var page := ListPage(index, q, cursor, maxKeys);
    while page.isTruncated
      invariant GoodPage(rows, cursor, maxKeys, q.encodeUrl, page)
      invariant FetchedUpTo(rows, startAfter, cursor, q.encodeUrl, AllContents(pages), AllPrefixes(pages))
      invariant AllTruncated(pages) && WithinBudget(pages, maxKeys)
      decreases Remaining(rows, cursor)
    {
      FollowPage(rows, startAfter, cursor, maxKeys, q.encodeUrl, AllContents(pages), AllPrefixes(pages), page);
      PageShrinksRemaining(rows, cursor, maxKeys, q.encodeUrl, page);
      AddPage(pages, page, maxKeys);
      pages := pages + [page];
      cursor := page.next;
      page := ListPage(index, q, cursor, maxKeys);
    }
    FollowLastPage(rows, startAfter, cursor, maxKeys, q.encodeUrl, AllContents(pages), AllPrefixes(pages), page);
    AddPage(pages, page, maxKeys);
    pages := pages + [page];
    CompleteListingLists(index, q, startAfter, maxKeys, pages);
  }

  lemma CompleteListingLists(index: seq<Entry>, q: Query, start: Bytes, maxKeys: nat, pages: seq<Page>)
    requires CompleteListing(Rows(index, q), start, maxKeys, q.encodeUrl, pages)
    ensures forall k :: k in RawKeys(AllContents(pages), q.encodeUrl) <==> ListedObject(index, q, start, k)
    ensures forall g :: g in RawKeys(AllPrefixes(pages), q.encodeUrl) <==> ListedGroup(index, q, start, g)
  {
    forall k ensures k in RawKeys(AllContents(pages), q.encodeUrl) <==> ListedObject(index, q, start, k) {
      ObjectsAreListed(index, q, start, k);
      assert k in SetOf(RawKeys(AllContents(pages), q.encodeUrl)) <==> k in Objects(Rows(index, q), start);
    }
    forall g ensures g in RawKeys(AllPrefixes(pages), q.encodeUrl) <==> ListedGroup(index, q, start, g) {
      GroupsAreListed(index, q, start, g);
      assert g in SetOf(RawKeys(AllPrefixes(pages), q.encodeUrl)) <==> g in Groups(Rows(index, q), start);
    }
  }

  /** No internal name surfaces in the pages: not as a segment of a listed key, and not as one
      of the slash-closed segments of a listed common prefix. */
  lemma PagesHideInternalNames(index: seq<Entry>, q: Query, start: Bytes, maxKeys: nat, pages: seq<Page>, seg: Bytes)
    requires CompleteListing(Rows(index, q), start, maxKeys, q.encodeUrl, pages)
    ensures forall k | k in RawKeys(AllContents(pages), q.encodeUrl) && seg in Split(k, SLASH) ::
              seg != [] && !InternalName(seg)
    ensures forall g, n | g in RawKeys(AllPrefixes(pages), q.encodeUrl) && 0 <= n < |g| && g[n] == SLASH
              && seg in Split(g[..n], SLASH) :: seg != [] && !InternalName(seg)
  {
    CompleteListingLists(index, q, start, maxKeys, pages);
    ReservedIffInternal(seg);
    forall g, n | g in RawKeys(AllPrefixes(pages), q.encodeUrl) && 0 <= n < |g| && g[n] == SLASH
      && seg in Split(g[..n], SLASH) ensures seg != [] && !InternalName(seg)
    {
      var e :| e in index && RollsInto(e, q, g);
      GroupSegments(e, q, g, n, seg);
    }
  }
}

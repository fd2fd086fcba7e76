/** Reading all children of a directory through the index's paged, resumable listing. */
module ChildPages {
  import opened ByteStrings

  /** A child row, or a resume position; the zero value starts at the beginning. */
  datatype Entry = Entry(name: Bytes, isDir: bool)

  const START := Entry([], false)

  const PAGE_SIZE: nat := 1000

  /** Listing order: directories first, then files, each by name. */
  predicate Before(a: Entry, b: Entry) {
    if a.isDir == b.isDir then Less(a.name, b.name) else a.isDir
  }

  /** The rows of one directory as the index stores them. */
  ghost predicate Rows(rows: seq<Entry>) {
    && (forall i, j | 0 <= i < j < |rows| :: Before(rows[i], rows[j]))
    && (forall e | e in rows :: e.name != [])
  }

  /** The first row strictly after a resume position, which need not be a row itself. */
  function Seek(rows: seq<Entry>, after: Entry): (n: nat)
    ensures n <= |rows|
  {
    if after == START || rows == [] || Before(after, rows[0]) then 0 else 1 + Seek(rows[1..], after)
  }

  /** The index port's contract: up to `limit` rows strictly after `after`. */
  function ListChildren(rows: seq<Entry>, after: Entry, limit: nat): (page: seq<Entry>)
    ensures |page| <= limit && Seek(rows, after) + |page| <= |rows|
    ensures page == rows[Seek(rows, after)..Seek(rows, after) + |page|]
    ensures |page| < limit ==> Seek(rows, after) + |page| == |rows|
  {
    var n := Seek(rows, after);
    rows[n..if |rows| - n <= limit then |rows| else n + limit]
  }

  lemma BeforeOrder(a: Entry, b: Entry, c: Entry)
    ensures Before(a, b) ==> !Before(b, a) && a != b
    ensures Before(a, b) && Before(b, c) ==> Before(a, c)
  {
    LessIrreflexive(a.name);
    if a.isDir == b.isDir && Less(a.name, b.name) {
      LessAsymmetric(a.name, b.name);
      if b.isDir == c.isDir && Less(b.name, c.name) {
        LessTransitive(a.name, b.name, c.name);
      }
    }
  }

  /** Rows list the directories before the files, and each kind by name. */
  lemma DirectoriesFirst(rows: seq<Entry>, i: nat, j: nat)
    requires Rows(rows) && i < j < |rows|
    ensures rows[j].isDir ==> rows[i].isDir
    ensures rows[i].isDir == rows[j].isDir ==> AtMost(rows[i].name, rows[j].name) && rows[i].name != rows[j].name
  {
    assert Before(rows[i], rows[j]);
    BeforeOrder(rows[i], rows[j], rows[j]);
  }

  /** Seeking splits the rows: those not after the position, then those after it. */
  lemma {:induction false} SeekSplits(rows: seq<Entry>, after: Entry, i: nat)
    requires Rows(rows) && after != START && i < |rows|
    ensures i < Seek(rows, after) <==> !Before(after, rows[i])
  {
    if Before(after, rows[0]) {
      if i > 0 {
        BeforeOrder(after, rows[0], rows[i]);
      }
    } else if i > 0 {
      SeekSplits(rows[1..], after, i - 1);
    }
  }

  /** Resuming at a row continues right behind it. */
  lemma SeekPastRow(rows: seq<Entry>, i: nat)
    requires Rows(rows) && i < |rows|
    ensures rows[i] != START && Seek(rows, rows[i]) == i + 1
  {
    assert rows[i] in rows;
    BeforeOrder(rows[i], rows[i], rows[i]);
    SeekSplits(rows, rows[i], i);
    if i + 1 < |rows| {
      SeekSplits(rows, rows[i], i + 1);
    }
  }

  /** Following the cursor page by page returns exactly the rows, once each and in order. */
  method ListAllChildren(rows: seq<Entry>) returns (out: seq<Entry>)
    requires Rows(rows)
    ensures out == rows
  {
    var cursor := START;
    out := [];
    ghost var n := 0;
    while true
      invariant n == Seek(rows, cursor) && out == rows[..n]
      decreases |rows| - n
    {
      var page := ListChildren(rows, cursor, PAGE_SIZE);
      if page == [] {
        break;
      }
      assert rows[..n] + rows[n..n + |page|] == rows[..n + |page|];
      out := out + page;
      n := n + |page|;
      if |page| < PAGE_SIZE {
        break;
      }
      cursor := page[|page| - 1];
      SeekPastRow(rows, n - 1);
    }
  }
}

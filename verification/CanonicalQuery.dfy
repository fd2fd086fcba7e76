/** The SigV4 canonical query string. */
module CanonicalQuery {
  import opened ByteStrings
  import opened Sequences
  import opened UriEncoding
  import opened Wrappers

  datatype Param = Param(key: Bytes, value: Bytes)

  // ----- Parameters -----

  /** A malformed escape leaves the raw text in place. */
  function DecodeOrRaw(s: Bytes): Bytes {
    match PercentDecode(s)
    case Some(d) => d
    case None => s
  }

  function ParseParam(kv: Bytes): Param {
    var eq := IndexByte(kv, EQUALS);
    if eq < 0 then Param(DecodeOrRaw(kv), DecodeOrRaw([]))
    else Param(DecodeOrRaw(kv[..eq]), DecodeOrRaw(kv[eq + 1..]))
  }

  /** Empty pieces between ampersands are skipped. */
  function ParsePiece(kv: Bytes): seq<Param> {
    if kv == [] then [] else [ParseParam(kv)]
  }

  /** The parameters of a raw query string, in the order sent. */
  function Params(raw: Bytes): seq<Param> {
    FlatMap(Split(raw, AMPERSAND), ParsePiece)
  }

  function RenderParam(p: Param): Bytes {
    UriEncode(p.key, true) + [EQUALS] + UriEncode(p.value, true)
  }

  function RenderPiece(p: Param): seq<Bytes> {
    [RenderParam(p)]
  }

  // ----- Order -----

  predicate ParamLess(p: Param, q: Param) {
    if p.key != q.key then Less(p.key, q.key) else Less(p.value, q.value)
  }

  lemma ParamLessAsymmetric(p: Param, q: Param)
    requires ParamLess(p, q)
    ensures !ParamLess(q, p)
  {
    if p.key != q.key { LessAsymmetric(p.key, q.key); } else { LessAsymmetric(p.value, q.value); }
  }

  /** "Not below" is transitive, the order being total. */
  lemma NotBelowTransitive(p: Param, q: Param, r: Param)
    requires !ParamLess(q, p) && !ParamLess(r, q)
    ensures !ParamLess(r, p)
  {
    LessTotal(p.key, q.key);
    LessTotal(q.key, r.key);
    LessTotal(p.value, q.value);
    LessTotal(q.value, r.value);
    if ParamLess(r, p) {
      if r.key != p.key {
        if p.key == q.key || q.key == r.key {
        } else {
          LessTransitive(p.key, q.key, r.key);
          LessAsymmetric(p.key, r.key);
        }
      } else if p.key == q.key {
        if p.value == q.value || q.value == r.value {
        } else {
          LessTransitive(p.value, q.value, r.value);
          LessAsymmetric(p.value, r.value);
        }
      } else {
        LessAsymmetric(p.key, q.key);
      }
    }
  }

  lemma ParamLessTotal(p: Param, q: Param)
    ensures ParamLess(p, q) || p == q || ParamLess(q, p)
  {
    LessTotal(p.key, q.key);
    LessTotal(p.value, q.value);
  }

  lemma ParamOrder()
    ensures StrictWeak(ParamLess)
    ensures forall p, q :: ParamLess(p, q) || p == q || ParamLess(q, p)
  {
    forall p, q | ParamLess(p, q) ensures !ParamLess(q, p) { ParamLessAsymmetric(p, q); }
    forall p, q, r | !ParamLess(q, p) && !ParamLess(r, q) ensures !ParamLess(r, p) { NotBelowTransitive(p, q, r); }
    forall p, q ensures ParamLess(p, q) || p == q || ParamLess(q, p) { ParamLessTotal(p, q); }
  }

  function SortParams(ps: seq<Param>): (r: seq<Param>)
    ensures multiset(r) == multiset(ps)
    ensures SortedBy(r, ParamLess)
  {
    ParamOrder();
    SortBy(ps, ParamLess)
  }

  /** Parameters have one sorted listing. */
  lemma SortedParamsUnique(a: seq<Param>, b: seq<Param>)
    requires SortedBy(a, ParamLess) && SortedBy(b, ParamLess) && multiset(a) == multiset(b)
    ensures a == b
  {
    ParamOrder();
    SortedUnique(a, b, ParamLess);
  }

  // ----- The canonical string -----

  function Canonical(raw: Bytes): Bytes {
    Join(FlatMap(SortParams(Params(raw)), RenderPiece), AMPERSAND)
  }

  lemma NoParamsInEmpty()
    ensures Params([]) == []
  {
    var parts: seq<Bytes> := [[]];
    assert Split([], AMPERSAND) == parts && parts[..0] == [];
    assert FlatMap(parts, ParsePiece) == FlatMap(parts[..0], ParsePiece) + ParsePiece(parts[0]);
  }

  /** One piece of the query, decoded on both sides of its first '='. */
  method DecodePiece(kv: Bytes) returns (p: Param)
    ensures p == ParseParam(kv)
  {
    var eq := IndexByte(kv, EQUALS);
    var k, v: Bytes := kv, [];
    if eq >= 0 {
      k, v := kv[..eq], kv[eq + 1..];
    }
    var dk, okKey := DecodePercent(k);
    var dv, okValue := DecodePercent(v);
    p := Param(dk, dv);
  }

  /** The first loop: split, decode, collect. */
  method CollectParams(raw: Bytes) returns (pairs: seq<Param>)
    ensures pairs == Params(raw)
  {
    var parts := Split(raw, AMPERSAND);
    pairs := [];
    for i := 0 to |parts|
      invariant pairs == FlatMap(parts[..i], ParsePiece)
    {
      assert parts[..i + 1] == parts[..i] + [parts[i]];
      FlatMapSnoc(parts[..i], parts[i], ParsePiece);
      if parts[i] != [] {
        var p := DecodePiece(parts[i]);
        pairs := pairs + [p];
      }
    }
    assert parts[..|parts|] == parts;
  }

  /** The last loop: encode and concatenate. */
  method RenderQuery(pairs: seq<Param>) returns (out: Bytes)
    ensures out == Join(FlatMap(pairs, RenderPiece), AMPERSAND)
  {
    out := [];
    for i := 0 to |pairs|
      invariant |FlatMap(pairs[..i], RenderPiece)| == i
      invariant out == Join(FlatMap(pairs[..i], RenderPiece), AMPERSAND)
    {
      assert pairs[..i + 1] == pairs[..i] + [pairs[i]];
      FlatMapSnoc(pairs[..i], pairs[i], RenderPiece);
      JoinSnoc(FlatMap(pairs[..i], RenderPiece), RenderParam(pairs[i]), AMPERSAND);
      if i > 0 {
        out := out + [AMPERSAND];
      }
      var k := EncodeUri(pairs[i].key, true);
      var v := EncodeUri(pairs[i].value, true);
      out := out + (k + [EQUALS] + v);
    }
    assert pairs[..|pairs|] == pairs;
  }

  method CanonicalQueryString(raw: Bytes) returns (out: Bytes)
    ensures out == Canonical(raw)
  {
    if raw == [] {
      NoParamsInEmpty();
      return [];
    }
    var pairs := CollectParams(raw);
    pairs := SortParams(pairs);
    out := RenderQuery(pairs);
  }

  /** The first separator is the one put there when the left part has none of its own. */
  lemma IndexOfSeparator(k: Bytes, c: Byte, v: Bytes)
    requires Lacks(k, c)
    ensures IndexByte(k + [c] + v, c) == |k|
    ensures (k + [c] + v)[..|k|] == k && (k + [c] + v)[|k| + 1..] == v
  {
    var s := k + [c] + v;
    var i := IndexByte(s, c);
    assert forall j | 0 <= j < |k| :: s[j] == k[j];
    assert s[|k|] == c;
  }

  lemma EncodedLacks(s: Bytes, c: Byte)
    requires !Unreserved(c) && c != PERCENT
    ensures Lacks(UriEncode(s, true), c)
  {
    EncodedAlphabet(s);
  }

  /** Reading back a rendered parameter gives that parameter. */
  lemma ParseUndoesRender(p: Param)
    ensures ParseParam(RenderParam(p)) == p
    ensures Lacks(RenderParam(p), AMPERSAND)
  {
    var k, v := UriEncode(p.key, true), UriEncode(p.value, true);
    EncodedLacks(p.key, EQUALS);
    IndexOfSeparator(k, EQUALS, v);
    DecodeUndoesEncode(p.key, true);
    DecodeUndoesEncode(p.value, true);
    EncodedLacks(p.key, AMPERSAND);
    EncodedLacks(p.value, AMPERSAND);
  }

  lemma ParseUndoesRenderAll(ps: seq<Param>)
    ensures FlatMap(FlatMap(ps, RenderPiece), ParsePiece) == ps
    ensures forall part | part in FlatMap(ps, RenderPiece) :: Lacks(part, AMPERSAND)
    ensures |FlatMap(ps, RenderPiece)| == |ps|
  {
    forall i | 0 <= i < |ps|
      ensures |RenderPiece(ps[i])| == 1 && ParsePiece(RenderPiece(ps[i])[0]) == [ps[i]]
      ensures Lacks(RenderPiece(ps[i])[0], AMPERSAND)
    {
      ParseUndoesRender(ps[i]);
    }
    FlatMapSingles(ps, RenderPiece);
    FlatMapInverse(ps, RenderPiece, ParsePiece);
  }

  /** Reading a canonical string gives the sorted parameters it was made from. */
  lemma ParamsOfCanonical(raw: Bytes)
    ensures Params(Canonical(raw)) == SortParams(Params(raw))
  {
    var ps := SortParams(Params(raw));
    ParseUndoesRenderAll(ps);
    if ps == [] {
      NoParamsInEmpty();
    } else {
      SplitUndoesJoin(FlatMap(ps, RenderPiece), AMPERSAND);
    }
  }

  /** The canonical string is a normal form: canonicalising it again changes nothing. */
  lemma CanonicalIsIdempotent(raw: Bytes)
    ensures Canonical(Canonical(raw)) == Canonical(raw)
  {
    ParamsOfCanonical(raw);
    var ps := SortParams(Params(raw));
    SortedParamsUnique(SortParams(ps), ps);
  }

  /** Two query strings share a canonical form exactly when they carry the same parameters. */
  lemma CanonicalDecidesParams(raw: Bytes, raw': Bytes)
    ensures Canonical(raw) == Canonical(raw') <==> multiset(Params(raw)) == multiset(Params(raw'))
  {
    ParamsOfCanonical(raw);
    ParamsOfCanonical(raw');
    if multiset(Params(raw)) == multiset(Params(raw')) {
      SortedParamsUnique(SortParams(Params(raw)), SortParams(Params(raw')));
    }
  }

  /** In particular the order in which parameters were sent does not matter. */
  lemma CanonicalIgnoresOrder(raw: Bytes, raw': Bytes)
    requires multiset(Split(raw, AMPERSAND)) == multiset(Split(raw', AMPERSAND))
    ensures Canonical(raw) == Canonical(raw')
  {
    FlatMapPermutation(Split(raw, AMPERSAND), Split(raw', AMPERSAND), ParsePiece);
    CanonicalDecidesParams(raw, raw');
  }

  // ----- What the canonical string is -----

  /** The text of a name or value stands for what it spells, or for itself if it spells nothing. */
  lemma DecodeOrRawIff(s: Bytes, d: Bytes)
    ensures DecodeOrRaw(s) == d <==>
            || (exists pieces :: Spells(pieces, s, d))
            || (d == s && !exists pieces, any :: Spells(pieces, s, any))
  {
    PercentDecodeIff(s, d);
    if PercentDecode(s).Some? {
      PercentDecodeIff(s, PercentDecode(s).value);
    } else {
      forall pieces, any ensures !Spells(pieces, s, any) {
        PercentDecodeIff(s, any);
      }
    }
  }

  /** The first '=' parts name and value; without one the value is empty. */
  lemma ParamIs(k: Bytes, v: Bytes)
    requires Lacks(k, EQUALS)
    ensures ParseParam(k + [EQUALS] + v) == Param(DecodeOrRaw(k), DecodeOrRaw(v))
    ensures ParseParam(k) == Param(DecodeOrRaw(k), [])
  {
    IndexOfSeparator(k, EQUALS, v);
  }

  /** The parameters are those of the pieces between ampersands, the empty ones left out. */
  lemma ParamsArePieces(a: Bytes, piece: Bytes)
    requires Lacks(piece, AMPERSAND)
    ensures Params(piece) == if piece == [] then [] else [ParseParam(piece)]
    ensures Params(a + [AMPERSAND] + piece) == Params(a) + Params(piece)
  {
    SplitHead(piece, [], AMPERSAND);
    var one: seq<Bytes> := [piece];
    assert piece + [] == piece && [piece] + [] == one && one[..0] == [];
    assert FlatMap(one, ParsePiece) == FlatMap(one[..0], ParsePiece) + ParsePiece(one[0]);
    SplitAppend(a, piece, AMPERSAND);
    FlatMapAppend(Split(a, AMPERSAND), Split(piece, AMPERSAND), ParsePiece);
  }

  /** By name, and by value where names are equal. */
  ghost predicate InOrder(ps: seq<Param>) {
    forall i, j | 0 <= i < j < |ps| ::
      Less(ps[i].key, ps[j].key) || (ps[i].key == ps[j].key && AtMost(ps[i].value, ps[j].value))
  }

  /** Every parameter, percent-encoded on both sides of '=', joined by ampersands. */
  ghost predicate Writes(ps: seq<Param>, texts: seq<Bytes>) {
    |texts| == |ps| && forall i | 0 <= i < |ps| ::
      texts[i] == UriEncode(ps[i].key, true) + [EQUALS] + UriEncode(ps[i].value, true)
  }

  /** The canonical string lists exactly the parameters sent, in order, each written in its one
      normal form. */
  lemma CanonicalIs(raw: Bytes)
    ensures exists ps, texts :: multiset(ps) == multiset(Params(raw)) && InOrder(ps) && Writes(ps, texts)
                                && Canonical(raw) == Join(texts, AMPERSAND)
  {
    var ps := SortParams(Params(raw));
    var texts := FlatMap(ps, RenderPiece);
    FlatMapSingles(ps, RenderPiece);
    forall i, j | 0 <= i < j < |ps|
      ensures Less(ps[i].key, ps[j].key) || (ps[i].key == ps[j].key && AtMost(ps[i].value, ps[j].value))
    {
      assert !ParamLess(ps[j], ps[i]);
      LessTotal(ps[i].key, ps[j].key);
      LessTotal(ps[i].value, ps[j].value);
    }
    assert Writes(ps, texts);
  }
}

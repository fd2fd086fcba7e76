/** Concatenated images and stable sorting, for any element type. */
module Sequences {

  function FlatMap<T, U>(xs: seq<T>, f: T -> seq<U>): seq<U> {
    if xs == [] then [] else FlatMap(xs[..|xs| - 1], f) + f(xs[|xs| - 1])
  }

  lemma FlatMapSnoc<T, U>(xs: seq<T>, x: T, f: T -> seq<U>)
    ensures FlatMap(xs + [x], f) == FlatMap(xs, f) + f(x)
  {
    assert (xs + [x])[..|xs|] == xs;
  }

  lemma Regroup<U>(a: seq<U>, b: seq<U>, c: seq<U>)
    ensures a + b + c == a + (b + c)
  {
  }

  lemma {:induction false} FlatMapAppend<T, U>(xs: seq<T>, ys: seq<T>, f: T -> seq<U>)
    ensures FlatMap(xs + ys, f) == FlatMap(xs, f) + FlatMap(ys, f)
  {
    if ys == [] {
      assert xs + ys == xs;
    } else {
      var n := |ys| - 1;
      var init, last := ys[..n], ys[n];
      FlatMapAppend(xs, init, f);
      assert xs + ys == (xs + init) + [last];
      FlatMapSnoc(xs + init, last, f);
      Regroup(FlatMap(xs, f), FlatMap(init, f), f(last));
    }
  }

  /** Images that are single elements keep their places. */
  lemma {:induction false} FlatMapSingles<T, U>(xs: seq<T>, f: T -> seq<U>)
    requires forall i | 0 <= i < |xs| :: |f(xs[i])| == 1
    ensures |FlatMap(xs, f)| == |xs|
    ensures forall i | 0 <= i < |xs| :: FlatMap(xs, f)[i] == f(xs[i])[0]
  {
    if xs != [] {
      FlatMapSingles(xs[..|xs| - 1], f);
    }
  }

  /** When `g` maps each single image back, it undoes `f` on the whole sequence. */
  lemma {:induction false} FlatMapInverse<T, U>(xs: seq<T>, f: T -> seq<U>, g: U -> seq<T>)
    requires forall i | 0 <= i < |xs| :: |f(xs[i])| == 1 && g(f(xs[i])[0]) == [xs[i]]
    ensures FlatMap(FlatMap(xs, f), g) == xs
  {
    if xs != [] {
      var init, x := xs[..|xs| - 1], xs[|xs| - 1];
      FlatMapInverse(init, f, g);
      FlatMapSnoc(FlatMap(init, f), f(x)[0], g);
      assert f(x) == [f(x)[0]];
      assert FlatMap(xs, f) == FlatMap(init, f) + f(x);
      assert xs == init + [x];
    }
  }

  lemma MultisetMiddle<U>(a: seq<U>, x: seq<U>, b: seq<U>)
    ensures multiset(a + x + b) == multiset(a + b) + multiset(x)
  {
  }

  /** Taking one element out takes its image out. */
  lemma FlatMapMiddle<T, U>(a: seq<T>, x: T, b: seq<T>, f: T -> seq<U>)
    ensures multiset(FlatMap(a + [x] + b, f)) == multiset(FlatMap(a + b, f)) + multiset(f(x))
  {
    FlatMapAppend(a + [x], b, f);
    FlatMapSnoc(a, x, f);
    FlatMapAppend(a, b, f);
    MultisetMiddle(FlatMap(a, f), f(x), FlatMap(b, f));
  }

  lemma SplitAround<T>(xs: seq<T>, x: T) returns (a: seq<T>, b: seq<T>)
    requires x in multiset(xs)
    ensures xs == a + [x] + b && multiset(a + b) == multiset(xs) - multiset{x}
  {
    var j :| 0 <= j < |xs| && xs[j] == x;
    a, b := xs[..j], xs[j + 1..];
    MultisetMiddle(a, [x], b);
  }

  /** Permuting the elements permutes the result. */
  lemma {:induction false} FlatMapPermutation<T, U>(xs: seq<T>, ys: seq<T>, f: T -> seq<U>)
    requires multiset(xs) == multiset(ys)
    ensures multiset(FlatMap(xs, f)) == multiset(FlatMap(ys, f))
    decreases |xs|
  {
    if xs == [] {
      assert |ys| == |multiset(ys)| == |multiset(xs)|;
    } else {
      var x := xs[0];
      var a, b := SplitAround(xs, x);
      var c, d := SplitAround(ys, x);
      FlatMapPermutation(a + b, c + d, f);
      FlatMapMiddle(a, x, b, f);
      FlatMapMiddle(c, x, d, f);
    }
  }

  // ----- Sorting -----

  /** `less` is a strict order in which "not below" is transitive. */
  ghost predicate StrictWeak<T(!new)>(less: (T, T) -> bool) {
    && (forall x, y :: less(x, y) ==> !less(y, x))
    && (forall x, y, z :: !less(y, x) && !less(z, y) ==> !less(z, x))
  }

  ghost predicate SortedBy<T>(xs: seq<T>, less: (T, T) -> bool) {
    forall i, j | 0 <= i < j < |xs| :: !less(xs[j], xs[i])
  }

  /** Places `x` after everything not above it, as a stable sort does. */
  function Insert<T>(xs: seq<T>, x: T, less: (T, T) -> bool): seq<T> {
    if xs == [] || !less(x, xs[|xs| - 1]) then xs + [x]
    else Insert(xs[..|xs| - 1], x, less) + [xs[|xs| - 1]]
  }

  lemma {:induction false} InsertAdds<T>(xs: seq<T>, x: T, less: (T, T) -> bool)
    ensures multiset(Insert(xs, x, less)) == multiset(xs) + multiset{x}
  {
    if xs != [] && less(x, xs[|xs| - 1]) {
      InsertAdds(xs[..|xs| - 1], x, less);
      assert xs == xs[..|xs| - 1] + [xs[|xs| - 1]];
    }
  }

  lemma {:induction false} InsertSorts<T(!new)>(xs: seq<T>, x: T, less: (T, T) -> bool)
    requires StrictWeak(less) && SortedBy(xs, less)
    ensures SortedBy(Insert(xs, x, less), less)
  {
    if xs != [] {
      if less(x, xs[|xs| - 1]) {
        var init := xs[..|xs| - 1];
        InsertSorts(init, x, less);
        InsertAdds(init, x, less);
        BelowLast(xs, x, Insert(init, x, less), less);
      } else {
        NotBelowLast(xs, x, less);
      }
    }
  }

  lemma NotBelowLast<T(!new)>(xs: seq<T>, x: T, less: (T, T) -> bool)
    requires StrictWeak(less) && SortedBy(xs, less) && xs != [] && !less(x, xs[|xs| - 1])
    ensures SortedBy(xs + [x], less)
  {
  }

  lemma BelowLast<T(!new)>(xs: seq<T>, x: T, r: seq<T>, less: (T, T) -> bool)
    requires StrictWeak(less) && SortedBy(xs, less) && xs != [] && less(x, xs[|xs| - 1])
    requires multiset(r) == multiset(xs[..|xs| - 1]) + multiset{x}
    ensures forall i | 0 <= i < |r| :: !less(xs[|xs| - 1], r[i])
  {
    forall i | 0 <= i < |r| ensures !less(xs[|xs| - 1], r[i]) {
      assert r[i] in multiset(r);
      if r[i] != x {
        assert r[i] in multiset(xs[..|xs| - 1]);
        var j :| 0 <= j < |xs| - 1 && xs[j] == r[i];
      }
    }
  }

  function SortBy<T(!new)>(xs: seq<T>, less: (T, T) -> bool): (r: seq<T>)
    requires StrictWeak(less)
    ensures multiset(r) == multiset(xs)
    ensures SortedBy(r, less)
  {
    if xs == [] then []
    else
      var init, x := xs[..|xs| - 1], xs[|xs| - 1];
      assert xs == init + [x];
      InsertAdds(SortBy(init, less), x, less);
      InsertSorts(SortBy(init, less), x, less);
      Insert(SortBy(init, less), x, less)
  }

  lemma HeadIsLeast<T>(xs: seq<T>, x: T, less: (T, T) -> bool)
    requires SortedBy(xs, less) && x in multiset(xs) && !less(x, x)
    ensures !less(x, xs[0])
  {
    var i :| 0 <= i < |xs| && xs[i] == x;
  }

  lemma TailMultiset<T>(xs: seq<T>)
    requires xs != []
    ensures multiset(xs[1..]) == multiset(xs) - multiset{xs[0]} && xs[0] in multiset(xs)
  {
    assert xs == [xs[0]] + xs[1..];
  }

  /** When unequal elements are always ordered, a multiset has one sorted listing. */
  lemma {:induction false} SortedUnique<T(!new)>(a: seq<T>, b: seq<T>, less: (T, T) -> bool)
    requires StrictWeak(less) && forall x, y :: less(x, y) || x == y || less(y, x)
    requires SortedBy(a, less) && SortedBy(b, less) && multiset(a) == multiset(b)
    ensures a == b
    decreases |a|
  {
    assert |a| == |multiset(a)| == |multiset(b)| == |b|;
    if a != [] {
      TailMultiset(a);
      TailMultiset(b);
      HeadIsLeast(a, b[0], less);
      HeadIsLeast(b, a[0], less);
      SortedUnique(a[1..], b[1..], less);
      assert a == [a[0]] + a[1..] && b == [b[0]] + b[1..];
    }
  }

  lemma SubsetSize<T>(a: set<T>, b: set<T>)
    requires a <= b
    ensures |a| <= |b|
  {
    assert b == a + (b - a);
  }
}

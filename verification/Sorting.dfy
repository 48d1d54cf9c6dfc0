/**
  Stable sorting by a comparator and filtering, as the stores use them on their lists
  (the calls `sort_by`, `retain` and `filter` of the original).

  A comparator is given by its strict part: `before(a, b)` says that a comes strictly first.
  Two values that are not ordered either way compare as equal.
*/
module Sorting {

  /** What `sort_by` asks of a comparator: its strict part is asymmetric and negatively transitive. */
  ghost predicate StrictWeakOrder<T(!new)>(before: (T, T) -> bool) {
    && (forall a, b :: before(a, b) ==> !before(b, a))
    && (forall a, b, c :: before(a, c) ==> before(a, b) || before(b, c))
  }

  /** No element comes strictly before an earlier one. */
  ghost predicate Sorted<T>(s: seq<T>, before: (T, T) -> bool) {
    forall i, j :: 0 <= i < j < |s| ==> !before(s[j], s[i])
  }

  /** Every element comes strictly before every later one. */
  ghost predicate Strict<T>(s: seq<T>, before: (T, T) -> bool) {
    forall i, j :: 0 <= i < j < |s| ==> before(s[i], s[j])
  }

  /** No two positions hold elements that compare as equal. */
  ghost predicate Separated<T>(s: seq<T>, before: (T, T) -> bool) {
    forall i, j :: 0 <= i < j < |s| ==> before(s[i], s[j]) || before(s[j], s[i])
  }

  function Insert<T>(x: T, s: seq<T>, before: (T, T) -> bool): seq<T> {
    if s == [] then [x]
    else if before(s[0], x) then [s[0]] + Insert(x, s[1..], before)
    else [x] + s
  }

  /** The stable sort: an element is put in front of the later ones that compare as equal to it. */
  function Sort<T>(xs: seq<T>, before: (T, T) -> bool): seq<T> {
    if xs == [] then [] else Insert(xs[0], Sort(xs[1..], before), before)
  }

  function Filter<T>(xs: seq<T>, keep: T -> bool): seq<T> {
    if xs == [] then []
    else (if keep(xs[0]) then [xs[0]] else []) + Filter(xs[1..], keep)
  }

  lemma {:induction false} InsertMultiset<T>(x: T, s: seq<T>, before: (T, T) -> bool)
    ensures multiset(Insert(x, s, before)) == multiset{x} + multiset(s)
  {
    if s == [] {
    } else {
      assert s == [s[0]] + s[1..];
      if before(s[0], x) {
        InsertMultiset(x, s[1..], before);
      }
    }
  }

  lemma {:induction false} SortMultiset<T>(xs: seq<T>, before: (T, T) -> bool)
    ensures multiset(Sort(xs, before)) == multiset(xs)
    ensures |Sort(xs, before)| == |xs|
  {
    if xs == [] {
    } else {
      assert xs == [xs[0]] + xs[1..];
      SortMultiset(xs[1..], before);
      InsertMultiset(xs[0], Sort(xs[1..], before), before);
    }
    assert |Sort(xs, before)| == |multiset(Sort(xs, before))| == |multiset(xs)| == |xs|;
  }

  lemma SortElements<T(!new)>(xs: seq<T>, before: (T, T) -> bool)
    ensures forall x :: x in Sort(xs, before) <==> x in xs
  {
    SortMultiset(xs, before);
    forall x
      ensures x in Sort(xs, before) <==> x in xs
    {
      assert x in Sort(xs, before) <==> x in multiset(Sort(xs, before));
      assert x in xs <==> x in multiset(xs);
    }
  }

  lemma {:induction false} InsertSorted<T(!new)>(x: T, s: seq<T>, before: (T, T) -> bool)
    requires StrictWeakOrder(before) && Sorted(s, before)
    ensures Sorted(Insert(x, s, before), before)
  {
    if s == [] {
    } else if before(s[0], x) {
      var rest := Insert(x, s[1..], before);
      InsertSorted(x, s[1..], before);
      InsertMultiset(x, s[1..], before);
      forall j | 0 <= j < |rest|
        ensures !before(rest[j], s[0])
      {
        assert rest[j] in multiset(rest);
        assert rest[j] == x || rest[j] in s[1..];
      }
    } else {
      var all := [x] + s;
      forall j | 0 <= j < |s|
        ensures !before(s[j], x)
      {
        assert j > 0 ==> !before(s[j], s[0]);
      }
    }
  }

  lemma {:induction false} SortSorted<T(!new)>(xs: seq<T>, before: (T, T) -> bool)
    requires StrictWeakOrder(before)
    ensures Sorted(Sort(xs, before), before)
  {
    if xs != [] {
      SortSorted(xs[1..], before);
      InsertSorted(xs[0], Sort(xs[1..], before), before);
    }
  }

  /** The test picks what compares as equal to x. */
  ghost predicate TiedWith<T(!new)>(tied: T -> bool, before: (T, T) -> bool, x: T) {
    forall y :: tied(y) <==> !before(x, y) && !before(y, x)
  }

  lemma NotBothTied<T(!new)>(before: (T, T) -> bool, x: T, tied: T -> bool)
    requires StrictWeakOrder(before) && TiedWith(tied, before, x)
    ensures forall a, b :: before(a, b) ==> !tied(a) || !tied(b)
  {
    forall a, b | before(a, b)
      ensures !tied(a) || !tied(b)
    {
      assert before(a, x) || before(x, b);
    }
  }

  /** Sorting is stable: elements that compare as equal to one another stay in the order they came in. */
  lemma {:induction false} SortIsStable<T(!new)>(xs: seq<T>, before: (T, T) -> bool, x: T, tied: T -> bool)
    requires StrictWeakOrder(before) && TiedWith(tied, before, x)
    ensures Filter(Sort(xs, before), tied) == Filter(xs, tied)
  {
    if xs != [] {
      SortIsStable(xs[1..], before, x, tied);
      NotBothTied(before, x, tied);
      InsertIsStable(xs[0], Sort(xs[1..], before), before, tied);
    }
  }

  function Singleton<T>(x: T, keep: T -> bool): seq<T> {
    if keep(x) then [x] else []
  }

  lemma FilterCons<T>(x: T, s: seq<T>, keep: T -> bool)
    ensures Filter([x] + s, keep) == Singleton(x, keep) + Filter(s, keep)
  {
    assert ([x] + s)[1..] == s;
  }

  lemma OneIsNothing<T>(a: seq<T>, b: seq<T>, s: seq<T>)
    requires a == [] || b == []
    ensures a + (b + s) == b + (a + s)
  {
    assert [] + s == s && a + s == [] + (a + s) && b + s == [] + (b + s);
  }

  lemma InsertBehind<T>(y: T, s: seq<T>, before: (T, T) -> bool)
    requires s != [] && before(s[0], y)
    ensures Insert(y, s, before) == [s[0]] + Insert(y, s[1..], before) && s == [s[0]] + s[1..]
  {
  }

  /** Putting an element in puts it in front of the ones it is tied with, which stay in their order. */
  lemma {:induction false} InsertIsStable<T(!new)>(y: T, s: seq<T>, before: (T, T) -> bool, tied: T -> bool)
    requires forall a, b :: before(a, b) ==> !tied(a) || !tied(b)
    ensures Filter(Insert(y, s, before), tied) == Singleton(y, tied) + Filter(s, tied)
  {
    if s != [] && before(s[0], y) {
      InsertBehind(y, s, before);
      InsertIsStable(y, s[1..], before, tied);
      FilterCons(s[0], Insert(y, s[1..], before), tied);
      FilterCons(s[0], s[1..], tied);
      OneIsNothing(Singleton(s[0], tied), Singleton(y, tied), Filter(s[1..], tied));
    } else {
      FilterCons(y, s, tied);
    }
  }

  /** When no two elements compare as equal, the sorted list is strictly increasing. */
  lemma {:induction false} SortStrict<T(!new)>(xs: seq<T>, before: (T, T) -> bool)
    requires StrictWeakOrder(before) && Separated(xs, before)
    ensures Strict(Sort(xs, before), before)
  {
    if xs != [] {
      var rest := Sort(xs[1..], before);
      SortStrict(xs[1..], before);
      SortElements(xs[1..], before);
      forall y | y in rest
        ensures before(xs[0], y) || before(y, xs[0])
      {
        assert y in xs[1..];
        var i :| 0 < i < |xs| && xs[i] == y;
      }
      InsertStrict(xs[0], rest, before);
    }
  }

  lemma {:induction false} InsertStrict<T(!new)>(x: T, s: seq<T>, before: (T, T) -> bool)
    requires StrictWeakOrder(before) && Strict(s, before)
    requires forall y :: y in s ==> before(x, y) || before(y, x)
    ensures Strict(Insert(x, s, before), before)
  {
    if s == [] {
    } else if before(s[0], x) {
      var rest := Insert(x, s[1..], before);
      InsertStrict(x, s[1..], before);
      InsertMultiset(x, s[1..], before);
      forall j | 0 <= j < |rest|
        ensures before(s[0], rest[j])
      {
        assert rest[j] in multiset(rest);
        assert rest[j] == x || rest[j] in s[1..];
      }
    } else {
      assert s[0] in s;
    }
  }

  /** A strictly increasing list is determined by its elements. */
  lemma {:induction false} StrictUnique<T(!new)>(s: seq<T>, t: seq<T>, before: (T, T) -> bool)
    requires StrictWeakOrder(before) && Strict(s, before) && Strict(t, before)
    requires forall x :: x in s <==> x in t
    ensures s == t
  {
    assert t != [] ==> t[0] in t && t[0] in s;
    if s != [] {
      assert s[0] in s;
      assert t != [];
      assert t[0] in t;
      assert s[0] == t[0];
      forall x
        ensures x in s[1..] <==> x in t[1..]
      {
        if x in s[1..] {
          assert before(s[0], x) && x in s;
          assert x in t;
        }
        if x in t[1..] {
          assert before(t[0], x) && x in t;
          assert x in s;
        }
      }
      StrictUnique(s[1..], t[1..], before);
      assert s == [s[0]] + s[1..] && t == [t[0]] + t[1..];
    }
  }

  /** A comparator under which only equal values compare as equal. */
  ghost predicate TotalOrder<T(!new)>(before: (T, T) -> bool) {
    StrictWeakOrder(before) && forall a, b :: before(a, b) || a == b || before(b, a)
  }

  /** Sorted lists of the same values begin with the same value. */
  lemma SameFirst<T(!new)>(s: seq<T>, t: seq<T>, before: (T, T) -> bool)
    requires TotalOrder(before) && Sorted(s, before) && Sorted(t, before)
    requires multiset(s) == multiset(t) && s != [] && t != []
    ensures s[0] == t[0]
  {
    assert s[0] in multiset(t) && t[0] in multiset(s);
    var i :| 0 <= i < |s| && s[i] == t[0];
    var j :| 0 <= j < |t| && t[j] == s[0];
  }

  lemma SameRest<T>(s: seq<T>, t: seq<T>)
    requires s != [] && t != [] && s[0] == t[0] && multiset(s) == multiset(t)
    ensures multiset(s[1..]) == multiset(t[1..])
    ensures s == [s[0]] + s[1..] && t == [s[0]] + t[1..]
  {
    assert s == [s[0]] + s[1..] && t == [t[0]] + t[1..];
    assert multiset(s[1..]) == multiset(s) - multiset{s[0]};
    assert multiset(t[1..]) == multiset(t) - multiset{t[0]};
  }

  /** Under a total order a sorted list is determined by its multiset. */
  lemma {:induction false} SortedUnique<T(!new)>(s: seq<T>, t: seq<T>, before: (T, T) -> bool)
    requires TotalOrder(before) && Sorted(s, before) && Sorted(t, before)
    requires multiset(s) == multiset(t)
    ensures s == t
  {
    assert |s| == |multiset(s)| == |multiset(t)| == |t|;
    if s != [] {
      SameFirst(s, t, before);
      SameRest(s, t);
      SortedUnique(s[1..], t[1..], before);
    }
  }

  /** Sorting one more value is inserting it. */
  lemma SortAppend<T(!new)>(xs: seq<T>, x: T, before: (T, T) -> bool)
    requires TotalOrder(before)
    ensures Sort(xs + [x], before) == Insert(x, Sort(xs, before), before)
  {
    SortSorted(xs + [x], before);
    SortSorted(xs, before);
    InsertSorted(x, Sort(xs, before), before);
    SortMultiset(xs + [x], before);
    SortMultiset(xs, before);
    InsertMultiset(x, Sort(xs, before), before);
    SortedUnique(Sort(xs + [x], before), Insert(x, Sort(xs, before), before), before);
  }

  lemma SortOfSorted<T(!new)>(s: seq<T>, before: (T, T) -> bool)
    requires TotalOrder(before) && Sorted(s, before)
    ensures Sort(s, before) == s
  {
    SortSorted(s, before);
    SortMultiset(s, before);
    SortedUnique(Sort(s, before), s, before);
  }

  function Truncate<T>(s: seq<T>, n: nat): seq<T> {
    if |s| > n then s[..n] else s
  }

  lemma TruncateCons<T>(x: T, s: seq<T>, n: nat)
    ensures n > 0 ==> Truncate([x] + s, n) == [x] + Truncate(s, n - 1)
  {
  }

  /** To keep the first n after an insertion, the first n before it are enough. */
  lemma {:induction false} InsertTruncate<T>(x: T, s: seq<T>, n: nat, before: (T, T) -> bool)
    ensures Truncate(Insert(x, Truncate(s, n), before), n) == Truncate(Insert(x, s, before), n)
  {
    if s != [] && n > 0 {
      var rest, kept := s[1..], Truncate(s[1..], n - 1);
      assert s == [s[0]] + rest;
      TruncateCons(s[0], rest, n);
      assert ([s[0]] + kept)[1..] == kept;
      if before(s[0], x) {
        InsertTruncate(x, rest, n - 1, before);
        TruncateCons(s[0], Insert(x, kept, before), n);
        TruncateCons(s[0], Insert(x, rest, before), n);
      } else {
        TruncateCons(x, s, n);
        TruncateCons(x, [s[0]] + kept, n);
        assert Truncate(Truncate(s, n), n - 1) == Truncate(s, n - 1);
      }
    }
  }

  /** So the first n of a growing collection can be kept up to date from the first n alone. */
  lemma TruncatedSortAppend<T(!new)>(xs: seq<T>, x: T, n: nat, before: (T, T) -> bool)
    requires TotalOrder(before)
    ensures Truncate(Sort(Truncate(Sort(xs, before), n) + [x], before), n)
            == Truncate(Sort(xs + [x], before), n)
  {
    var kept := Truncate(Sort(xs, before), n);
    SortSorted(xs, before);
    SortAppend(xs, x, before);
    SortAppend(kept, x, before);
    SortOfSorted(kept, before);
    InsertTruncate(x, Sort(xs, before), n, before);
  }

  /** A list that is strictly increasing already is left as it is. */
  lemma SortOfStrict<T(!new)>(s: seq<T>, before: (T, T) -> bool)
    requires StrictWeakOrder(before) && Strict(s, before)
    ensures Sort(s, before) == s
  {
    SortStrict(s, before);
    SortElements(s, before);
    StrictUnique(Sort(s, before), s, before);
  }

  lemma {:induction false} FilterElements<T(!new)>(xs: seq<T>, keep: T -> bool)
    ensures forall x :: x in Filter(xs, keep) <==> x in xs && keep(x)
    ensures |Filter(xs, keep)| <= |xs|
  {
    if xs != [] {
      FilterElements(xs[1..], keep);
      assert xs == [xs[0]] + xs[1..];
    }
  }

  /** A relation between all earlier and later elements survives filtering. */
  lemma {:induction false} FilterStrict<T(!new)>(xs: seq<T>, keep: T -> bool, before: (T, T) -> bool)
    requires Strict(xs, before)
    ensures Strict(Filter(xs, keep), before)
  {
    if xs != [] {
      FilterStrict(xs[1..], keep, before);
      FilterElements(xs[1..], keep);
      var rest := Filter(xs[1..], keep);
      forall j | 0 <= j < |rest|
        ensures before(xs[0], rest[j])
      {
        assert rest[j] in rest;
        assert rest[j] in xs[1..];
      }
    }
  }

  lemma {:induction false} FilterSeparated<T(!new)>(xs: seq<T>, keep: T -> bool, before: (T, T) -> bool)
    requires Separated(xs, before)
    ensures Separated(Filter(xs, keep), before)
  {
    FilterStrict(xs, keep, (a, b) => before(a, b) || before(b, a));
  }

  lemma {:induction false} FilterAll<T(!new)>(xs: seq<T>, keep: T -> bool)
    ensures (forall x :: x in xs ==> keep(x)) <==> |Filter(xs, keep)| == |xs|
    ensures (forall x :: x in xs ==> keep(x)) ==> Filter(xs, keep) == xs
  {
    if xs != [] {
      FilterAll(xs[1..], keep);
      FilterElements(xs[1..], keep);
      assert xs == [xs[0]] + xs[1..];
    }
  }

  lemma {:induction false} FilterAppend<T>(a: seq<T>, b: seq<T>, keep: T -> bool)
    ensures Filter(a + b, keep) == Filter(a, keep) + Filter(b, keep)
  {
    if a == [] {
      assert a + b == b;
    } else {
      var first, rest := if keep(a[0]) then [a[0]] else [], a[1..];
      FilterAppend(rest, b, keep);
      assert (a + b)[1..] == rest + b && (a + b)[0] == a[0];
      assert Filter(a + b, keep) == first + Filter(rest + b, keep);
      assert first + (Filter(rest, keep) + Filter(b, keep)) == (first + Filter(rest, keep)) + Filter(b, keep);
    }
  }

  lemma {:induction false} FilterMultiset<T>(xs: seq<T>, keep: T -> bool, x: T)
    ensures multiset(Filter(xs, keep))[x] == if keep(x) then multiset(xs)[x] else 0
  {
    if xs != [] {
      FilterMultiset(xs[1..], keep, x);
      assert xs == [xs[0]] + xs[1..];
      assert Filter(xs, keep) == (if keep(xs[0]) then [xs[0]] else []) + Filter(xs[1..], keep);
    }
  }

  lemma {:induction false} FilterNone<T(!new)>(xs: seq<T>, keep: T -> bool)
    requires forall x :: x in xs ==> !keep(x)
    ensures Filter(xs, keep) == []
  {
    if xs != [] {
      FilterNone(xs[1..], keep);
    }
  }

  lemma FilterSize<T(!new)>(a: seq<T>, b: seq<T>, keep: T -> bool)
    requires multiset(a) == multiset(b)
    ensures |Filter(a, keep)| == |Filter(b, keep)|
  {
    forall x
      ensures multiset(Filter(a, keep))[x] == multiset(Filter(b, keep))[x]
    {
      FilterMultiset(a, keep, x);
      FilterMultiset(b, keep, x);
    }
    assert multiset(Filter(a, keep)) == multiset(Filter(b, keep));
    assert |multiset(Filter(a, keep))| == |Filter(a, keep)| && |multiset(Filter(b, keep))| == |Filter(b, keep)|;
  }

  lemma {:induction false} FilterMonotone<T(!new)>(xs: seq<T>, p: T -> bool, q: T -> bool)
    requires forall x :: x in xs && p(x) ==> q(x)
    ensures |Filter(xs, p)| <= |Filter(xs, q)|
  {
    if xs != [] {
      assert xs[0] in xs;
      FilterMonotone(xs[1..], p, q);
    }
  }

  lemma {:induction false} FilterAgrees<T(!new)>(xs: seq<T>, p: T -> bool, q: T -> bool)
    requires forall x :: p(x) <==> q(x)
    ensures Filter(xs, p) == Filter(xs, q)
  {
    if xs != [] {
      FilterAgrees(xs[1..], p, q);
    }
  }

  lemma {:induction false} FilterTwice<T(!new)>(xs: seq<T>, p: T -> bool, q: T -> bool, both: T -> bool)
    requires forall x :: both(x) <==> p(x) && q(x)
    ensures Filter(Filter(xs, p), q) == Filter(xs, both)
  {
    if xs != [] {
      FilterTwice(xs[1..], p, q, both);
      if p(xs[0]) {
        assert Filter(xs, p) == [xs[0]] + Filter(xs[1..], p);
      } else {
        assert Filter(xs, p) == Filter(xs[1..], p);
      }
    }
  }

  /** A list without repeats is no longer than a list that holds all its elements. */
  lemma {:induction false} DistinctSize<T>(s: seq<T>, t: seq<T>)
    requires forall i, j :: 0 <= i < j < |s| ==> s[i] != s[j]
    requires forall x :: x in s ==> x in t
    ensures |s| <= |t|
  {
    if s != [] {
      assert s[0] in s;
      var k :| 0 <= k < |t| && t[k] == s[0];
      var rest := t[..k] + t[k + 1..];
      forall x | x in s[1..]
        ensures x in rest
      {
        assert x in s && x != s[0];
        var i :| 0 <= i < |t| && t[i] == x;
        assert x == if i < k then rest[i] else rest[i - 1];
      }
      DistinctSize(s[1..], rest);
    }
  }

  /** The position in a strictly increasing list is the number of elements that come before. */
  lemma {:induction false} PositionInStrict<T(!new)>(s: seq<T>, before: (T, T) -> bool, i: nat)
    requires StrictWeakOrder(before) && Strict(s, before) && i < |s|
    ensures |Filter(s, x => before(x, s[i]))| == i
  {
    var earlier := x => before(x, s[i]);
    if i == 0 {
      forall x | x in s
        ensures !earlier(x)
      {
        var j :| 0 <= j < |s| && s[j] == x;
        assert j > 0 ==> before(s[0], s[j]);
      }
      FilterNone(s, earlier);
    } else {
      PositionInStrict(s[1..], before, i - 1);
      assert before(s[0], s[i]);
    }
  }

  /** An element is among the first n of the sorted list iff fewer than n come before it. */
  lemma AmongFirstIff<T(!new)>(xs: seq<T>, n: nat, before: (T, T) -> bool, x: T, earlier: T -> bool)
    requires StrictWeakOrder(before) && Separated(xs, before)
    requires forall y :: earlier(y) <==> before(y, x)
    ensures x in Truncate(Sort(xs, before), n) <==> x in xs && |Filter(xs, earlier)| < n
  {
    var sorted := Sort(xs, before);
    SortStrict(xs, before);
    SortElements(xs, before);
    SortMultiset(xs, before);
    FilterSize(sorted, xs, earlier);
    if x in sorted {
      var i :| 0 <= i < |sorted| && sorted[i] == x;
      PositionInStrict(sorted, before, i);
      FilterAgrees(sorted, earlier, y => before(y, sorted[i]));
      assert i < n ==> Truncate(sorted, n)[i] == x;
    }
  }

  /** Comparators that agree sort the same. */
  lemma {:induction false} SortAgrees<T(!new)>(xs: seq<T>, before: (T, T) -> bool, other: (T, T) -> bool)
    requires forall a, b :: before(a, b) <==> other(a, b)
    ensures Sort(xs, before) == Sort(xs, other)
  {
    if xs != [] {
      SortAgrees(xs[1..], before, other);
      InsertAgrees(xs[0], Sort(xs[1..], before), before, other);
    }
  }

  lemma {:induction false} InsertAgrees<T(!new)>(x: T, s: seq<T>, before: (T, T) -> bool, other: (T, T) -> bool)
    requires forall a, b :: before(a, b) <==> other(a, b)
    ensures Insert(x, s, before) == Insert(x, s, other)
  {
    if s != [] {
      InsertAgrees(x, s[1..], before, other);
    }
  }

  /** Leaving out some elements of t, in order, gives s. */
  predicate Subsequence<T(==)>(s: seq<T>, t: seq<T>) {
    s == [] || (t != [] && ((s[0] == t[0] && Subsequence(s[1..], t[1..])) || Subsequence(s, t[1..])))
  }

  lemma {:induction false} SubsequenceMultiset<T>(s: seq<T>, t: seq<T>)
    requires Subsequence(s, t)
    ensures multiset(s) <= multiset(t)
  {
    if s != [] {
      assert t == [t[0]] + t[1..];
      if s[0] == t[0] && Subsequence(s[1..], t[1..]) {
        SubsequenceMultiset(s[1..], t[1..]);
        assert s == [s[0]] + s[1..];
      } else {
        SubsequenceMultiset(s, t[1..]);
      }
    }
  }

  /** The elements of t that pass the test, each as often as in t, and in the order of t. */
  ghost predicate KeepsExactly<T(!new)>(s: seq<T>, t: seq<T>, keep: T -> bool) {
    Subsequence(s, t) && forall x :: multiset(s)[x] == if keep(x) then multiset(t)[x] else 0
  }

  /** Filtering is the one list that does so. */
  lemma {:induction false} FilterIsExact<T(!new)>(s: seq<T>, t: seq<T>, keep: T -> bool)
    ensures KeepsExactly(s, t, keep) <==> s == Filter(t, keep)
  {
    FilterKeepsExactly(t, keep);
    if KeepsExactly(s, t, keep) {
      KeptIsFiltered(s, t, keep);
    }
  }

  lemma {:induction false} FilterKeepsExactly<T(!new)>(t: seq<T>, keep: T -> bool)
    ensures KeepsExactly(Filter(t, keep), t, keep)
  {
    forall x
      ensures multiset(Filter(t, keep))[x] == if keep(x) then multiset(t)[x] else 0
    {
      FilterMultiset(t, keep, x);
    }
    if t != [] {
      FilterKeepsExactly(t[1..], keep);
      if keep(t[0]) {
        assert Filter(t, keep)[1..] == Filter(t[1..], keep);
      } else {
        assert Filter(t, keep) == Filter(t[1..], keep);
      }
    }
  }

  lemma {:induction false} KeptIsFiltered<T(!new)>(s: seq<T>, t: seq<T>, keep: T -> bool)
    requires KeepsExactly(s, t, keep)
    ensures s == Filter(t, keep)
  {
    if t == [] {
      assert multiset(t) == multiset{};
    } else {
      assert t == [t[0]] + t[1..];
      if keep(t[0]) {
        assert multiset(s)[t[0]] == multiset(t[1..])[t[0]] + 1;
        if Subsequence(s, t[1..]) {
          SubsequenceMultiset(s, t[1..]);
        }
        assert s == [t[0]] + s[1..];
        KeptIsFiltered(s[1..], t[1..], keep);
      } else {
        assert s != [] ==> multiset(s)[s[0]] > 0;
        KeptIsFiltered(s, t[1..], keep);
      }
    }
  }
}

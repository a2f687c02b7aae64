/** List helpers shared by the analysers: order-preserving filtering and
    the stable sort Python's `list.sort(key=...)` performs. */
module Seqs {

  /** `[x for x in xs if p(x)]`: the elements satisfying `p`, in order. */
  function Filter<T>(xs: seq<T>, p: T -> bool): (r: seq<T>)
    ensures |r| <= |xs|
  {
    if |xs| == 0 then []
    else (if p(xs[0]) then [xs[0]] else []) + Filter(xs[1..], p)
  }

  /** Every element kept by the filter passes it. */
  lemma {:induction false} FilterPasses<T>(xs: seq<T>, p: T -> bool)
    ensures forall k :: 0 <= k < |Filter(xs, p)| ==> p(Filter(xs, p)[k])
  {
    if |xs| > 0 {
      FilterPasses(xs[1..], p);
    }
  }

  /** An element survives filtering exactly when it was there and passes. */
  lemma {:induction false} FilterIn<T>(xs: seq<T>, p: T -> bool, x: T)
    ensures x in Filter(xs, p) <==> x in xs && p(x)
  {
    if |xs| > 0 {
      FilterIn(xs[1..], p, x);
      assert xs == [xs[0]] + xs[1..];
    }
  }

  /** Filtering distributes over concatenation. */
  lemma {:induction false} FilterAppend<T>(a: seq<T>, b: seq<T>, p: T -> bool)
    ensures Filter(a + b, p) == Filter(a, p) + Filter(b, p)
  {
    if |a| == 0 {
      assert a + b == b;
    } else {
      var t := a[1..];
      assert a == [a[0]] + t;
      assert a + b == [a[0]] + (t + b);
      FilterCons(a[0], t + b, p);
      FilterCons(a[0], t, p);
      FilterAppend(t, b, p);
    }
  }

  /** Filters that agree on the elements give the same result. */
  lemma {:induction false} FilterCongruent<T>(xs: seq<T>, p: T -> bool, q: T -> bool)
    requires forall k :: 0 <= k < |xs| ==> p(xs[k]) == q(xs[k])
    ensures Filter(xs, p) == Filter(xs, q)
  {
    if |xs| > 0 {
      FilterCongruent(xs[1..], p, q);
    }
  }

  /** The conjunction of two filters. */
  function And<T>(p: T -> bool, q: T -> bool): T -> bool {
    x => p(x) && q(x)
  }

  /** Filtering twice is filtering once by the conjunction. */
  lemma {:induction false} FilterFilter<T>(xs: seq<T>, p: T -> bool, q: T -> bool)
    ensures Filter(Filter(xs, p), q) == Filter(xs, And(p, q))
  {
    if |xs| > 0 {
      FilterFilter(xs[1..], p, q);
      var head := if p(xs[0]) then [xs[0]] else [];
      FilterAppend(head, Filter(xs[1..], p), q);
    }
  }

  /** `[f(x) for x in xs]`. */
  function Map<A, B>(xs: seq<A>, f: A -> B): (r: seq<B>)
    ensures |r| == |xs|
    ensures forall k :: 0 <= k < |xs| ==> r[k] == f(xs[k])
  {
    if |xs| == 0 then [] else Map(xs[..|xs| - 1], f) + [f(xs[|xs| - 1])]
  }

  /** Mapping distributes over concatenation. */
  lemma MapAppend<A, B>(a: seq<A>, b: seq<A>, f: A -> B)
    ensures Map(a + b, f) == Map(a, f) + Map(b, f)
  {
    var l, r := Map(a + b, f), Map(a, f) + Map(b, f);
    assert |l| == |r|;
    forall k | 0 <= k < |l|
      ensures l[k] == r[k]
    {
      if k < |a| {
        assert (a + b)[k] == a[k];
      } else {
        assert (a + b)[k] == b[k - |a|];
      }
    }
  }

  /** `[f(x) for x in xs if p(x)]`, where `f` need only be defined on the
      elements that pass. */
  function FilterMap<T(!new), U>(xs: seq<T>, p: T -> bool, f: T --> U): (r: seq<U>)
    requires forall x :: p(x) ==> f.requires(x)
    ensures |r| == |Filter(xs, p)|
    ensures forall k :: 0 <= k < |r| ==> p(Filter(xs, p)[k]) && r[k] == f(Filter(xs, p)[k])
  {
    FilterPasses(xs, p);
    if |xs| == 0 then []
    else
      var rest := FilterMap(xs[1..], p, f);
      var r := (if p(xs[0]) then [f(xs[0])] else []) + rest;
      assert Filter(xs, p) == (if p(xs[0]) then [xs[0]] else []) + Filter(xs[1..], p);
      r
  }

  /** Filtering and mapping distribute over concatenation. */
  lemma FilterMapAppend<T(!new), U>(a: seq<T>, b: seq<T>, p: T -> bool, f: T --> U)
    requires forall x :: p(x) ==> f.requires(x)
    ensures FilterMap(a + b, p, f) == FilterMap(a, p, f) + FilterMap(b, p, f)
  {
    FilterAppend(a, b, p);
    var fa := Filter(a, p);
    var fb := Filter(b, p);
    var l := FilterMap(a + b, p, f);
    var r := FilterMap(a, p, f) + FilterMap(b, p, f);
    forall k | 0 <= k < |l|
      ensures l[k] == r[k]
    {
      if k < |fa| {
        assert (fa + fb)[k] == fa[k];
      } else {
        assert (fa + fb)[k] == fb[k - |fa|];
      }
    }
  }

  /** The elements in non-decreasing order of `key`. */
  ghost predicate SortedBy<T>(xs: seq<T>, key: T -> int) {
    forall i, j :: 0 <= i < j < |xs| ==> key(xs[i]) <= key(xs[j])
  }

  /** Every key in `s` is at least `v`. */
  ghost predicate AllAtLeast<T>(s: seq<T>, key: T -> int, v: int) {
    forall k :: 0 <= k < |s| ==> v <= key(s[k])
  }

  lemma {:induction false} FilterAtLeast<T>(s: seq<T>, key: T -> int, v: int, p: T -> bool)
    requires AllAtLeast(s, key, v)
    ensures AllAtLeast(Filter(s, p), key, v)
  {
    if |s| > 0 {
      FilterAtLeast(s[1..], key, v, p);
    }
  }

  /** Inserts `x` into a sorted list after every element whose key is not
      larger, which keeps equal keys in arrival order. */
  function Insert<T>(x: T, s: seq<T>, key: T -> int): (r: seq<T>)
    ensures |r| == |s| + 1
  {
    if |s| == 0 || key(x) < key(s[0]) then [x] + s
    else [s[0]] + Insert(x, s[1..], key)
  }

  /** Insertion adds exactly one element. */
  lemma {:induction false} InsertMultiset<T>(x: T, s: seq<T>, key: T -> int)
    ensures multiset(Insert(x, s, key)) == multiset(s) + multiset{x}
  {
    if |s| > 0 && key(x) >= key(s[0]) {
      InsertMultiset(x, s[1..], key);
      assert s == [s[0]] + s[1..];
    }
  }

  lemma {:induction false} InsertAtLeast<T>(x: T, s: seq<T>, key: T -> int, v: int)
    requires AllAtLeast(s, key, v) && v <= key(x)
    ensures AllAtLeast(Insert(x, s, key), key, v)
  {
    if |s| > 0 && key(x) >= key(s[0]) {
      InsertAtLeast(x, s[1..], key, v);
    }
  }

  /** Inserting into a sorted list keeps it sorted. */
  lemma {:induction false} InsertSorted<T>(x: T, s: seq<T>, key: T -> int)
    requires SortedBy(s, key)
    ensures SortedBy(Insert(x, s, key), key)
  {
    if |s| > 0 && key(x) >= key(s[0]) {
      InsertSorted(x, s[1..], key);
      InsertAtLeast(x, s[1..], key, key(s[0]));
      assert Insert(x, s, key) == [s[0]] + Insert(x, s[1..], key);
    }
  }

  /** `sorted(xs, key=key)`: an insertion sort that takes the elements left to
      right, so it is stable like Python's. The result is ordered by key;
      `SortByPermutes` shows it is a permutation of the input. */
  function SortBy<T>(xs: seq<T>, key: T -> int): (r: seq<T>)
    ensures SortedBy(r, key)
    ensures |r| == |xs|
  {
    if |xs| == 0 then []
    else
      var init := xs[..|xs| - 1];
      InsertSorted(xs[|xs| - 1], SortBy(init, key), key);
      Insert(xs[|xs| - 1], SortBy(init, key), key)
  }

  /** Sorting keeps every element, as often as it occurs. */
  lemma {:induction false} SortByPermutes<T>(xs: seq<T>, key: T -> int)
    ensures multiset(SortBy(xs, key)) == multiset(xs)
  {
    if |xs| > 0 {
      var init := xs[..|xs| - 1];
      assert xs == init + [xs[|xs| - 1]];
      SortByPermutes(init, key);
      InsertMultiset(xs[|xs| - 1], SortBy(init, key), key);
    }
  }

  /** A filtered sorted list is still sorted. */
  lemma {:induction false} FilterSorted<T>(s: seq<T>, key: T -> int, p: T -> bool)
    requires SortedBy(s, key)
    ensures SortedBy(Filter(s, p), key)
  {
    if |s| > 0 {
      FilterSorted(s[1..], key, p);
      FilterAtLeast(s[1..], key, key(s[0]), p);
    }
  }

  /** Filtering commutes with inserting into a sorted list. */
  lemma {:induction false} FilterInsert<T>(x: T, s: seq<T>, key: T -> int, p: T -> bool)
    requires SortedBy(s, key)
    ensures Filter(Insert(x, s, key), p)
         == if p(x) then Insert(x, Filter(s, p), key) else Filter(s, p)
  {
    if |s| == 0 || key(x) < key(s[0]) {
      FilterInsertFront(x, s, key, p);
    } else {
      FilterInsert(x, s[1..], key, p);
      assert s == [s[0]] + s[1..];
      FilterInsertBehind(x, s[0], s[1..], key, p);
    }
  }

  lemma FilterInsertFront<T>(x: T, s: seq<T>, key: T -> int, p: T -> bool)
    requires SortedBy(s, key)
    requires |s| == 0 || key(x) < key(s[0])
    ensures Filter(Insert(x, s, key), p)
         == if p(x) then Insert(x, Filter(s, p), key) else Filter(s, p)
  {
    InsertAtFront(x, s, key);
    FilterCons(x, s, p);
    var fs := Filter(s, p);
    if p(x) {
      if |s| > 0 {
        assert AllAtLeast(s, key, key(s[0])) by {
          forall k | 0 < k < |s|
            ensures key(s[0]) <= key(s[k])
          {
          }
        }
        FilterAtLeast(s, key, key(s[0]), p);
      }
      InsertAtFront(x, fs, key);
    }
  }

  /** An element smaller than the head goes in front. */
  lemma InsertAtFront<T>(x: T, s: seq<T>, key: T -> int)
    requires |s| == 0 || key(x) < key(s[0])
    ensures Insert(x, s, key) == [x] + s
  {
  }

  lemma FilterInsertBehind<T>(x: T, h: T, t: seq<T>, key: T -> int, p: T -> bool)
    requires key(x) >= key(h)
    requires Filter(Insert(x, t, key), p)
          == if p(x) then Insert(x, Filter(t, p), key) else Filter(t, p)
    ensures Filter(Insert(x, [h] + t, key), p)
         == if p(x) then Insert(x, Filter([h] + t, p), key) else Filter([h] + t, p)
  {
    var s := [h] + t;
    assert s[0] == h && s[1..] == t;
    var rest := Insert(x, t, key);
    assert Insert(x, s, key) == [h] + rest;
    FilterCons(h, rest, p);
    FilterCons(h, t, p);
    if p(x) && p(h) {
      var fs := [h] + Filter(t, p);
      assert fs[0] == h && fs[1..] == Filter(t, p);
      assert Insert(x, fs, key) == [h] + Insert(x, Filter(t, p), key);
    } else if p(x) {
      assert Filter(s, p) == [] + Filter(t, p) == Filter(t, p);
      assert Filter(Insert(x, s, key), p) == [] + Filter(rest, p) == Filter(rest, p);
    }
  }

  lemma FilterCons<T>(a: T, t: seq<T>, p: T -> bool)
    ensures Filter([a] + t, p) == (if p(a) then [a] else []) + Filter(t, p)
  {
    assert ([a] + t)[1..] == t;
  }

  lemma SortBySnoc<T>(init: seq<T>, last: T, key: T -> int)
    ensures SortBy(init + [last], key) == Insert(last, SortBy(init, key), key)
  {
    var xs := init + [last];
    assert xs[..|xs| - 1] == init;
  }

  /** Sorting then filtering equals filtering then sorting. */
  lemma {:induction false} FilterSort<T>(xs: seq<T>, key: T -> int, p: T -> bool)
    ensures Filter(SortBy(xs, key), p) == SortBy(Filter(xs, p), key)
  {
    if |xs| > 0 {
      var init := xs[..|xs| - 1];
      var last := xs[|xs| - 1];
      assert xs == init + [last];
      var sorted := SortBy(init, key);
      var fi := Filter(init, p);
      SortBySnoc(init, last, key);
      assert SortBy(xs, key) == Insert(last, sorted, key);
      FilterSort(init, key, p);
      assert Filter(sorted, p) == SortBy(fi, key);
      FilterInsert(last, sorted, key, p);
      FilterAppend(init, [last], p);
      FilterCons(last, [], p);
      assert [last] + [] == [last];
      if p(last) {
        assert Filter(xs, p) == fi + [last];
        SortBySnoc(fi, last, key);
      } else {
        assert Filter(xs, p) == fi;
      }
    }
  }

  /** `xs[:n]` for a non-negative `n`. */
  function Take<T>(xs: seq<T>, n: nat): (r: seq<T>)
    ensures |r| == if n < |xs| then n else |xs|
    ensures r <= xs
  {
    if n < |xs| then xs[..n] else xs
  }
}

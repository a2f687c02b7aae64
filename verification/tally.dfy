/** Python's `Counter` / `defaultdict(int)` as used for failure counts: a
    list of (key, count) pairs in first-insertion order, plus the
    `sorted(..., key=count, reverse=True)[:k]` ranking built on it. */
module Tally {
  import Seqs

  /** Distinct keys with their counts, in the order the keys first arrived. */
  type Counter<K> = seq<(K, nat)>

  /** Number of occurrences of `k` in `xs`. */
  function Count<K(==)>(xs: seq<K>, k: K): nat {
    if |xs| == 0 then 0
    else Count(xs[..|xs| - 1], k) + (if xs[|xs| - 1] == k then 1 else 0)
  }

  /** `c[k]` on a counter: the stored count, or 0 for a missing key. */
  function Get<K(==)>(c: Counter<K>, k: K): nat {
    if |c| == 0 then 0
    else if c[0].0 == k then c[0].1
    else Get(c[1..], k)
  }

  /** The keys of a counter, in order. */
  function Keys<K>(c: Counter<K>): (ks: seq<K>)
    ensures |ks| == |c|
    ensures forall i :: 0 <= i < |c| ==> ks[i] == c[i].0
  {
    if |c| == 0 then [] else [c[0].0] + Keys(c[1..])
  }

  /** `sum(c.values())`. */
  function Total<K>(c: Counter<K>): nat {
    if |c| == 0 then 0 else c[0].1 + Total(c[1..])
  }

  ghost predicate DistinctKeys<K>(c: Counter<K>) {
    forall i, j :: 0 <= i < j < |c| ==> c[i].0 != c[j].0
  }

  /** Every stored count is at least one. */
  ghost predicate Positive<K>(c: Counter<K>) {
    forall i :: 0 <= i < |c| ==> c[i].1 >= 1
  }

  /** `c[k] += 1`: bumps an existing key in place or appends it with 1. */
  function Bump<K(==)>(c: Counter<K>, k: K): (r: Counter<K>)
    ensures Total(r) == Total(c) + 1
  {
    if |c| == 0 then [(k, 1)]
    else if c[0].0 == k then [(k, c[0].1 + 1)] + c[1..]
    else [c[0]] + Bump(c[1..], k)
  }

  /** Counting the keys of `xs` from left to right, as the source's loops do. */
  function Tally<K(==)>(xs: seq<K>): (c: Counter<K>)
    ensures Total(c) == |xs|
  {
    if |xs| == 0 then [] else Bump(Tally(xs[..|xs| - 1]), xs[|xs| - 1])
  }

  lemma {:induction false} BumpGet<K>(c: Counter<K>, k: K, k': K)
    ensures Get(Bump(c, k), k') == Get(c, k') + (if k' == k then 1 else 0)
  {
    if |c| > 0 && c[0].0 != k {
      BumpGet(c[1..], k, k');
      assert Bump(c, k)[1..] == Bump(c[1..], k);
    } else if |c| > 0 {
      assert Bump(c, k)[1..] == c[1..];
    }
  }

  lemma {:induction false} GetAbsent<K>(c: Counter<K>, k: K)
    requires forall i :: 0 <= i < |c| ==> c[i].0 != k
    ensures Get(c, k) == 0
  {
    if |c| > 0 {
      GetAbsent(c[1..], k);
    }
  }

  lemma {:induction false} BumpKeys<K>(c: Counter<K>, k: K)
    ensures Keys(Bump(c, k)) == if k in Keys(c) then Keys(c) else Keys(c) + [k]
  {
    if |c| > 0 && c[0].0 != k {
      BumpKeys(c[1..], k);
      assert Keys(c) == [c[0].0] + Keys(c[1..]);
      assert Keys(Bump(c, k)) == [c[0].0] + Keys(Bump(c[1..], k));
    } else if |c| > 0 {
      assert Keys(Bump(c, k)) == [k] + Keys(c[1..]);
    }
  }

  lemma {:induction false} BumpPositive<K>(c: Counter<K>, k: K)
    requires Positive(c)
    ensures Positive(Bump(c, k))
  {
    if |c| > 0 && c[0].0 != k {
      BumpPositive(c[1..], k);
    }
  }

  /** The counts of a tally are the occurrence counts of the keys. */
  lemma {:induction false} TallyGet<K>(xs: seq<K>, k: K)
    ensures Get(Tally(xs), k) == Count(xs, k)
  {
    if |xs| > 0 {
      TallyGet(xs[..|xs| - 1], k);
      BumpGet(Tally(xs[..|xs| - 1]), xs[|xs| - 1], k);
    }
  }

  /** A tally holds each key of `xs` once, in first-appearance order. */
  lemma {:induction false} TallyKeys<K>(xs: seq<K>)
    ensures Keys(Tally(xs)) == Dedup(xs)
  {
    if |xs| > 0 {
      var init := xs[..|xs| - 1];
      TallyKeys(init);
      BumpKeys(Tally(init), xs[|xs| - 1]);
    }
  }

  /** Every count in a tally is at least one. */
  lemma {:induction false} TallyPositive<K>(xs: seq<K>)
    ensures Positive(Tally(xs))
  {
    if |xs| > 0 {
      TallyPositive(xs[..|xs| - 1]);
      BumpPositive(Tally(xs[..|xs| - 1]), xs[|xs| - 1]);
    }
  }

  /** The distinct elements of `xs` in first-appearance order. */
  function Dedup<K(==)>(xs: seq<K>): seq<K> {
    if |xs| == 0 then []
    else
      var d := Dedup(xs[..|xs| - 1]);
      if xs[|xs| - 1] in d then d else d + [xs[|xs| - 1]]
  }

  /** `Dedup` keeps every element once and nothing else. */
  lemma {:induction false} DedupSpec<K>(xs: seq<K>)
    ensures forall x :: x in Dedup(xs) <==> x in xs
    ensures forall i, j :: 0 <= i < j < |Dedup(xs)| ==> Dedup(xs)[i] != Dedup(xs)[j]
  {
    if |xs| > 0 {
      var init := xs[..|xs| - 1];
      DedupSpec(init);
      assert xs == init + [xs[|xs| - 1]];
    }
  }

  lemma KeysDistinct<K>(c: Counter<K>)
    requires forall i, j :: 0 <= i < j < |Keys(c)| ==> Keys(c)[i] != Keys(c)[j]
    ensures DistinctKeys(c)
  {
    var ks := Keys(c);
    forall i, j | 0 <= i < j < |c|
      ensures c[i].0 != c[j].0
    {
      assert ks[i] == c[i].0 && ks[j] == c[j].0;
    }
  }

  /** The keys of a tally are pairwise different and are exactly the
      elements of `xs`. */
  lemma TallyDistinct<K>(xs: seq<K>)
    ensures DistinctKeys(Tally(xs))
    ensures forall k :: k in Keys(Tally(xs)) <==> k in xs
  {
    TallyKeys(xs);
    DedupSpec(xs);
    KeysDistinct(Tally(xs));
  }

  lemma {:induction false} TotalAppend<K>(a: Counter<K>, b: Counter<K>)
    ensures Total(a + b) == Total(a) + Total(b)
  {
    if |a| == 0 {
      assert a + b == b;
    } else {
      assert (a + b)[1..] == a[1..] + b;
      TotalAppend(a[1..], b);
    }
  }

  /** Dropping the entry at `i` takes its count off the total. */
  lemma {:induction false} TotalRemove<K>(b: Counter<K>, i: nat)
    requires i < |b|
    ensures Total(b) == b[i].1 + Total(b[..i] + b[i + 1..])
  {
    if i == 0 {
      assert b[..0] + b[1..] == b[1..];
    } else {
      var t := b[1..];
      TotalRemove(t, i - 1);
      assert b[..i] + b[i + 1..] == [b[0]] + (t[..i - 1] + t[i..]);
    }
  }

  lemma MultisetRemove<T>(b: seq<T>, i: nat)
    requires i < |b|
    ensures multiset(b[..i] + b[i + 1..]) == multiset(b) - multiset{b[i]}
  {
    assert b == b[..i] + [b[i]] + b[i + 1..];
  }

  /** Taking the same element out of two permutations of each other leaves
      two permutations of each other. */
  lemma RemoveMatching<T>(a: seq<T>, b: seq<T>, i: nat)
    requires |a| > 0 && i < |b| && b[i] == a[0] && multiset(a) == multiset(b)
    ensures multiset(a[1..]) == multiset(b[..i] + b[i + 1..])
  {
    MultisetRemove(b, i);
    assert a == [a[0]] + a[1..];
  }

  /** Reordering a counter does not change the sum of its counts. */
  lemma {:induction false} TotalPermutation<K>(a: Counter<K>, b: Counter<K>)
    requires multiset(a) == multiset(b)
    ensures Total(a) == Total(b)
    decreases |a|
  {
    if |a| == 0 {
      assert |b| == |multiset(b)| == 0;
    } else {
      assert a[0] in multiset(b);
      var i :| 0 <= i < |b| && b[i] == a[0];
      var rest := b[..i] + b[i + 1..];
      RemoveMatching(a, b, i);
      TotalPermutation(a[1..], rest);
      TotalRemove(b, i);
    }
  }

  /** Counting distributes over concatenation. */
  lemma {:induction false} CountAppend<K>(a: seq<K>, b: seq<K>, k: K)
    ensures Count(a + b, k) == Count(a, k) + Count(b, k)
  {
    if |b| > 0 {
      var n := |b| - 1;
      CountAppend(a, b[..n], k);
      assert (a + b)[..|a + b| - 1] == a + b[..n];
    } else {
      assert a + b == a;
    }
  }

  /** Counting the keys of the elements that pass `p` is counting the
      elements that pass `p` and carry the key. */
  lemma {:induction false} CountMapFilter<T, K>(xs: seq<T>, p: T -> bool, key: T -> K, v: K, q: T -> bool)
    requires forall x :: q(x) == (p(x) && key(x) == v)
    ensures Count(Seqs.Map(Seqs.Filter(xs, p), key), v) == |Seqs.Filter(xs, q)|
  {
    if |xs| > 0 {
      CountMapFilter(xs[1..], p, key, v, q);
      var h := if p(xs[0]) then [xs[0]] else [];
      var t := Seqs.Filter(xs[1..], p);
      assert Seqs.Filter(xs, p) == h + t;
      Seqs.MapAppend(h, t, key);
      CountAppend(Seqs.Map(h, key), Seqs.Map(t, key), v);
      if p(xs[0]) {
        assert Seqs.Map(h, key) == [key(xs[0])];
        assert Count([key(xs[0])], v) == if key(xs[0]) == v then 1 else 0;
      }
    }
  }

  /** In a counter with distinct keys, looking up an entry's key finds that
      entry's count. */
  lemma {:induction false} GetAt<K>(c: Counter<K>, i: nat)
    requires DistinctKeys(c) && i < |c|
    ensures Get(c, c[i].0) == c[i].1
  {
    if i > 0 {
      assert c[0].0 != c[i].0;
      assert c[1..][i - 1] == c[i];
      GetAt(c[1..], i - 1);
    }
  }

  /** An entry of a counter with distinct keys occurs in it once. */
  lemma OnceIn<K>(c: Counter<K>, a: nat)
    requires DistinctKeys(c) && a < |c|
    ensures multiset(c)[c[a]] == 1
  {
    assert c == c[..a] + [c[a]] + c[a + 1..];
    assert c[a] !in c[..a] by {
      forall x | 0 <= x < a
        ensures c[..a][x] != c[a]
      {
        assert c[..a][x] == c[x];
      }
    }
    var tail := c[a + 1..];
    assert c[a] !in tail by {
      forall x | 0 <= x < |tail|
        ensures tail[x] != c[a]
      {
        assert tail[x] == c[a + 1 + x];
      }
    }
  }

  /** Reordering a counter with distinct keys keeps every key's count. */
  lemma GetPermutation<K>(c: Counter<K>, r: Counter<K>, k: K)
    requires DistinctKeys(c) && multiset(r) == multiset(c)
    ensures Get(r, k) == Get(c, k)
  {
    DistinctSub(c, r);
    if i :| 0 <= i < |c| && c[i].0 == k {
      assert c[i] in multiset(r);
      var j :| 0 <= j < |r| && r[j] == c[i];
      GetAt(c, i);
      GetAt(r, j);
    } else {
      forall j | 0 <= j < |r|
        ensures r[j].0 != k
      {
        assert r[j] in multiset(c);
      }
      GetAbsent(c, k);
      GetAbsent(r, k);
    }
  }

  /** Entries taken from a tally carry true, positive counts, each key
      once. */
  lemma RankedCounts<K>(xs: seq<K>, top: Counter<K>, i: nat)
    requires multiset(top) <= multiset(Tally(xs)) && i < |top|
    ensures top[i].1 == Count(xs, top[i].0) > 0
    ensures DistinctKeys(top)
  {
    var c := Tally(xs);
    TallyDistinct(xs);
    TallyPositive(xs);
    DistinctSub(c, top);
    assert top[i] in multiset(c);
    var j :| 0 <= j < |c| && c[j] == top[i];
    GetAt(c, j);
    TallyGet(xs, top[i].0);
  }

  /** An entry of a sub-multiset sits somewhere in the larger sequence. */
  lemma FromSub<T>(top: seq<T>, c: seq<T>, i: nat) returns (j: nat)
    requires multiset(top) <= multiset(c) && i < |top|
    ensures j < |c| && c[j] == top[i]
  {
    assert top[i] in multiset(c);
    j :| 0 <= j < |c| && c[j] == top[i];
  }

  /** An entry at two positions occurs at least twice. */
  lemma TwiceIn<T>(r: seq<T>, i: nat, j: nat)
    requires i < j < |r| && r[i] == r[j]
    ensures multiset(r)[r[i]] >= 2
  {
    assert r == r[..i] + [r[i]] + r[i + 1..j] + [r[j]] + r[j + 1..];
  }

  /** Entries taken from a counter with distinct keys, each at most as often
      as it occurs there, have distinct keys too. */
  lemma DistinctSub<K>(c: Counter<K>, r: Counter<K>)
    requires DistinctKeys(c) && multiset(r) <= multiset(c)
    ensures DistinctKeys(r)
  {
    forall i, j | 0 <= i < j < |r|
      ensures r[i].0 != r[j].0
    {
      assert r[i] in multiset(c) && r[j] in multiset(c);
      var a :| 0 <= a < |c| && c[a] == r[i];
      var b :| 0 <= b < |c| && c[b] == r[j];
      if r[i].0 == r[j].0 {
        assert a == b;
        TwiceIn(r, i, j);
        OnceIn(c, a);
        assert false;
      }
    }
  }

  /** A key is counted at least once exactly when it occurs. */
  lemma {:induction false} CountPositive<K>(xs: seq<K>, k: K)
    ensures Count(xs, k) > 0 <==> k in xs
  {
    if |xs| > 0 {
      var n := |xs| - 1;
      CountPositive(xs[..n], k);
      assert xs == xs[..n] + [xs[n]];
    }
  }

  /** In a tally, a key is stored exactly when it is counted at least once,
      and then under its count. */
  lemma TallyLookup<K>(xs: seq<K>, k: K)
    ensures k in Keys(Tally(xs)) <==> Get(Tally(xs), k) > 0
  {
    TallyGet(xs, k);
    TallyDistinct(xs);
    CountPositive(xs, k);
  }

  /** The key Python's `sorted(..., key=lambda kv: kv[1], reverse=True)`
      sorts by, turned into an ascending key. */
  function ByCountDesc<K>(p: (K, nat)): int {
    0 - p.1 as int
  }

  /** Counts never increase along the list. */
  ghost predicate NonIncreasing<K>(c: Counter<K>) {
    forall i, j :: 0 <= i < j < |c| ==> c[i].1 >= c[j].1
  }

  /** `sorted(c.items(), key=lambda kv: kv[1], reverse=True)`: the same
      entries, largest count first. */
  function SortDesc<K>(c: Counter<K>): (r: Counter<K>)
    ensures NonIncreasing(r)
    ensures multiset(r) == multiset(c)
    ensures Total(r) == Total(c)
  {
    var r := Seqs.SortBy(c, ByCountDesc);
    assert forall i, j :: 0 <= i < j < |r| ==> ByCountDesc(r[i]) <= ByCountDesc(r[j]);
    Seqs.SortByPermutes(c, ByCountDesc);
    TotalPermutation(r, c);
    r
  }

  /** `sorted(c.items(), key=count, reverse=True)[:k]` (also what
      `Counter.most_common(k)` returns): at most `k` entries of `c`, largest
      first, and every entry left out counts no more than any entry kept. */
  function TopK<K>(c: Counter<K>, k: nat): (r: Counter<K>)
    ensures |r| == if k < |c| then k else |c|
    ensures NonIncreasing(r)
    ensures multiset(r) <= multiset(c)
    ensures forall q, j :: q in c && q !in r && 0 <= j < |r| ==> q.1 <= r[j].1
  {
    var s := SortDesc(c);
    var r := Seqs.Take(s, k);
    TopKDominates(c, s, r);
    MultisetPrefix(r, s);
    r
  }

  lemma TopKDominates<K>(c: Counter<K>, s: Counter<K>, r: Counter<K>)
    requires NonIncreasing(s) && multiset(s) == multiset(c) && r <= s
    ensures forall q, j :: q in c && q !in r && 0 <= j < |r| ==> q.1 <= r[j].1
  {
    forall q, j | q in c && q !in r && 0 <= j < |r|
      ensures q.1 <= r[j].1
    {
      assert q in multiset(s);
      var i :| 0 <= i < |s| && s[i] == q;
      assert s[j] == r[j];
    }
  }

  lemma MultisetPrefix<T>(r: seq<T>, s: seq<T>)
    requires r <= s
    ensures multiset(r) <= multiset(s)
  {
    assert s == r + s[|r|..];
  }
}

/** The sliding-window failure rules shared by both blacklisting analysers,
    stated declaratively over a time-sorted list of one IP's failures, and
    the two scanning algorithms the analysers use to decide them: the
    two-pointer scan of the command-line analyser and the deque scan with a
    per-user multiplicity map of the final project's analyser. */
module Windows {

  /** One failed attempt from a given IP: when (in seconds) and against whom. */
  datatype Fail = Fail(ts: int, user: string)

  ghost predicate Sorted(ts: seq<int>) {
    forall i, j :: 0 <= i <= j < |ts| ==> ts[i] <= ts[j]
  }

  /** The failures are in time order. */
  ghost predicate InTimeOrder(evs: seq<Fail>) {
    forall i, j :: 0 <= i <= j < |evs| ==> evs[i].ts <= evs[j].ts
  }

  /** The timestamps of the failures, in order. */
  function Times(evs: seq<Fail>): (ts: seq<int>)
    ensures |ts| == |evs|
    ensures forall k :: 0 <= k < |evs| ==> ts[k] == evs[k].ts
  {
    if |evs| == 0 then [] else Times(evs[..|evs| - 1]) + [evs[|evs| - 1].ts]
  }

  lemma TimesSorted(evs: seq<Fail>)
    requires InTimeOrder(evs)
    ensures Sorted(Times(evs))
  {
    var ts := Times(evs);
    forall i, j | 0 <= i <= j < |ts|
      ensures ts[i] <= ts[j]
    {
      assert ts[i] == evs[i].ts && ts[j] == evs[j].ts;
    }
  }

  /** Some run ts[a..b] ending before `hi` spans at most `w` seconds and holds
      at least `n` events: `n` events fall into [ts[b] - w, ts[b]]. */
  ghost predicate BurstUpTo(ts: seq<int>, hi: nat, w: int, n: int)
    requires hi <= |ts|
  {
    exists a, b :: 0 <= a <= b < hi && BurstAt(ts, a, b, w, n)
  }

  /** The run ts[a..b] spans at most `w` seconds and holds `n` events. */
  ghost predicate BurstAt(ts: seq<int>, a: nat, b: nat, w: int, n: int)
    requires a <= b < |ts|
  {
    ts[b] - ts[a] <= w && b - a + 1 >= n
  }

  /** Some window of `w` seconds holds at least `n` of the events. */
  ghost predicate Burst(ts: seq<int>, w: int, n: int) {
    BurstUpTo(ts, |ts|, w, n)
  }

  /** The users attacked by the failures evs[lo..hi]. */
  function Users(evs: seq<Fail>, lo: nat, hi: nat): set<string>
    requires lo <= hi <= |evs|
  {
    set k | lo <= k < hi :: evs[k].user
  }

  /** Some run evs[a..b] ending before `hi` spans at most `w` seconds and
      attacks at least `n` distinct users. */
  ghost predicate ScatterUpTo(evs: seq<Fail>, hi: nat, w: int, n: int)
    requires hi <= |evs|
  {
    exists a, b :: 0 <= a <= b < hi && ScatterAt(evs, a, b, w, n)
  }

  /** The run evs[a..b] spans at most `w` seconds and names `n` users. */
  ghost predicate ScatterAt(evs: seq<Fail>, a: nat, b: nat, w: int, n: int)
    requires a <= b < |evs|
  {
    evs[b].ts - evs[a].ts <= w && |Users(evs, a, b + 1)| >= n
  }

  ghost predicate Scatter(evs: seq<Fail>, w: int, n: int) {
    ScatterUpTo(evs, |evs|, w, n)
  }

  /** `lo` is the left end of the longest window ending at event `k`: the
      events before it are more than `w` seconds older, the one at it is not. */
  ghost predicate LeftEnd(ts: seq<int>, lo: nat, k: nat, w: int)
    requires lo <= k < |ts|
  {
    ts[k] - ts[lo] <= w && forall m :: 0 <= m < lo ==> ts[k] - ts[m] > w
  }

  /** Extending the prefix by event `k` adds exactly one candidate: the
      longest window ending at `k`. */
  lemma BurstStep(ts: seq<int>, lo: nat, k: nat, w: int, n: int)
    requires lo <= k < |ts| && LeftEnd(ts, lo, k, w)
    ensures BurstUpTo(ts, k + 1, w, n) <==> BurstUpTo(ts, k, w, n) || k - lo + 1 >= n
  {
    if BurstUpTo(ts, k + 1, w, n) && !BurstUpTo(ts, k, w, n) {
      var a, b :| 0 <= a <= b < k + 1 && BurstAt(ts, a, b, w, n);
      assert b == k;
      assert a >= lo;
    }
    if k - lo + 1 >= n {
      assert BurstAt(ts, lo, k, w, n);
    }
  }

  lemma UsersWider(evs: seq<Fail>, lo: nat, a: nat, hi: nat)
    requires lo <= a <= hi <= |evs|
    ensures Users(evs, a, hi) <= Users(evs, lo, hi)
    ensures |Users(evs, a, hi)| <= |Users(evs, lo, hi)|
  {
    var small := Users(evs, a, hi);
    var big := Users(evs, lo, hi);
    forall u | u in small
      ensures u in big
    {
      var k :| a <= k < hi && evs[k].user == u;
    }
    assert small <= big;
    SubsetCard(small, big);
  }

  lemma {:induction false} SubsetCard<T>(small: set<T>, big: set<T>)
    requires small <= big
    ensures |small| <= |big|
    decreases |big|
  {
    if small != {} {
      var x :| x in small;
      SubsetCard(small - {x}, big - {x});
    }
  }

  /** `LeftEnd` read off the failures themselves. */
  ghost predicate LeftEndOf(evs: seq<Fail>, lo: nat, k: nat, w: int)
    requires lo <= k < |evs|
  {
    evs[k].ts - evs[lo].ts <= w && forall m :: 0 <= m < lo ==> evs[k].ts - evs[m].ts > w
  }

  /** The scattered-users counterpart of `BurstStep`. */
  lemma ScatterStep(evs: seq<Fail>, lo: nat, k: nat, w: int, n: int)
    requires lo <= k < |evs| && LeftEndOf(evs, lo, k, w)
    ensures ScatterUpTo(evs, k + 1, w, n) <==> ScatterUpTo(evs, k, w, n) || |Users(evs, lo, k + 1)| >= n
  {
    if ScatterUpTo(evs, k + 1, w, n) && !ScatterUpTo(evs, k, w, n) {
      var a, b :| 0 <= a <= b < k + 1 && ScatterAt(evs, a, b, w, n);
      ScatterLast(evs, lo, k, w, n, a, b);
    }
    if |Users(evs, lo, k + 1)| >= n {
      assert ScatterAt(evs, lo, k, w, n);
    }
  }

  lemma ScatterLast(evs: seq<Fail>, lo: nat, k: nat, w: int, n: int, a: nat, b: nat)
    requires lo <= k < |evs| && LeftEndOf(evs, lo, k, w)
    requires a <= b < k + 1 && ScatterAt(evs, a, b, w, n)
    requires !ScatterUpTo(evs, k, w, n)
    ensures |Users(evs, lo, k + 1)| >= n
  {
    UsersWider(evs, lo, a, k + 1);
  }

  /** The two-pointer scan of the command-line analyser's rules 1 and 2: for
      each failure `j` the left pointer `i` advances past every failure more
      than `w` seconds older, and the rule fires (and the scan stops) as soon
      as `j - i + 1` reaches `n`. The comparison is strict, so a failure
      exactly `w` seconds old is still inside the window. */
  method BurstScan(ts: seq<int>, w: int, n: int) returns (fired: bool)
    requires Sorted(ts) && w >= 0
    ensures fired <==> Burst(ts, w, n)
  {
    var i := 0;
    var j := 0;
    fired := false;
    while j < |ts| && !fired
      invariant 0 <= i <= j <= |ts|
      invariant j < |ts| ==> forall m :: 0 <= m < i ==> ts[j] - ts[m] > w
      invariant fired ==> Burst(ts, w, n)
      invariant !fired ==> !BurstUpTo(ts, j, w, n)
      decreases |ts| - j, if fired then 0 else 1
    {
      while ts[j] - ts[i] > w
        invariant i <= j
        invariant forall m :: 0 <= m < i ==> ts[j] - ts[m] > w
        decreases j - i
      {
        i := i + 1;
      }
      BurstStep(ts, i, j, w, n);
      if j - i + 1 >= n {
        fired := true;
        BurstUpToWider(ts, j + 1, |ts|, w, n);
      } else {
        j := j + 1;
      }
    }
  }

  lemma BurstUpToWider(ts: seq<int>, hi: nat, hi': nat, w: int, n: int)
    requires hi <= hi' <= |ts| && BurstUpTo(ts, hi, w, n)
    ensures BurstUpTo(ts, hi', w, n)
  {
    var a, b :| 0 <= a <= b < hi && BurstAt(ts, a, b, w, n);
    assert 0 <= a <= b < hi';
  }

  lemma ScatterUpToWider(evs: seq<Fail>, hi: nat, hi': nat, w: int, n: int)
    requires hi <= hi' <= |evs| && ScatterUpTo(evs, hi, w, n)
    ensures ScatterUpTo(evs, hi', w, n)
  {
    var a, b :| 0 <= a <= b < hi && ScatterAt(evs, a, b, w, n);
    assert 0 <= a <= b < hi';
  }

  /** Rule 3 of the command-line analyser: the same two-pointer scan, firing
      when the failures between the pointers name at least `n` distinct
      users. */
  method ScatterScan(evs: seq<Fail>, w: int, n: int) returns (fired: bool)
    requires InTimeOrder(evs) && w >= 0
    ensures fired <==> Scatter(evs, w, n)
  {
    var i := 0;
    var j := 0;
    fired := false;
    while j < |evs| && !fired
      invariant 0 <= i <= j <= |evs|
      invariant j < |evs| ==> forall m :: 0 <= m < i ==> evs[j].ts - evs[m].ts > w
      invariant fired ==> Scatter(evs, w, n)
      invariant !fired ==> !ScatterUpTo(evs, j, w, n)
      decreases |evs| - j, if fired then 0 else 1
    {
      var tsj := evs[j].ts;
      while tsj - evs[i].ts > w
        invariant i <= j
        invariant forall m :: 0 <= m < i ==> evs[j].ts - evs[m].ts > w
        decreases j - i
      {
        i := i + 1;
      }
      ScatterStep(evs, i, j, w, n);
      var distinct := |Users(evs, i, j + 1)|;
      if distinct >= n {
        fired := true;
        ScatterUpToWider(evs, j + 1, |evs|, w, n);
      } else {
        j := j + 1;
      }
    }
  }
}

/** The log analyser's statistics (`analisador_logs/analytics.py`):
    totals, failures counted per IP and per user (a missing or empty value
    counted as "unknown"), and the sorted list of IPs with at least three
    failures. */
module LogAnalytics {
  import opened Base
  import Text
  import Seqs
  import Tally
  import opened LogIo
  import opened LogParser

  /** IPs with at least this many failures are suspicious. */
  const SuspiciousFrom: nat := 3

  const Unknown: Value := Str("unknown")

  /** Python's falsy values among the modelled ones. */
  predicate Falsy(v: Value) {
    v.Null? || v == Str("") || v == Int(0) || v == Bool(false)
  }

  /** `v or 'unknown'` used as a dictionary key. A dictionary treats `True`
      and `1` as the same key, so a true value is counted under 1. */
  function Bucket(v: Value): (k: Value)
    ensures k.Str? || k.Int?
  {
    if Falsy(v) then Unknown
    else match v
      case Bool(_) => Int(1)
      case _ => v
  }

  predicate IsSuccess(p: Parsed) {
    p.status == Some("success")
  }

  predicate IsFailure(p: Parsed) {
    !IsSuccess(p)
  }

  function IpBucket(p: Parsed): Value {
    Bucket(p.ip)
  }

  function UserBucket(p: Parsed): Value {
    Bucket(p.user)
  }

  /** The integer part of `analyze`'s result. */
  datatype LogStats = LogStats(
    total: nat, success: nat, fail: nat,
    failByIp: Tally.Counter<Value>, failByUser: Tally.Counter<Value>,
    suspicious: Result<seq<Value>>)

  /** The order `sorted` uses on the keys: numbers by value, strings
      lexicographically. Python refuses to compare a string with a number;
      here numbers are put first so that the order is total, and `Mixed`
      marks the inputs on which Python raises instead. */
  predicate KeyLess(a: Value, b: Value) {
    if Rank(a) != Rank(b) then Rank(a) < Rank(b)
    else match (a, b)
      case (Int(x), Int(y)) => x < y
      case (Str(x), Str(y)) => Text.LexLess(x, y)
      case (Bool(x), Bool(y)) => !x && y
      case _ => false
  }

  function Rank(v: Value): nat {
    match v
    case Null => 0
    case Bool(_) => 1
    case Int(_) => 2
    case Str(_) => 3
  }

  lemma KeyLessIrreflexive(a: Value)
    ensures !KeyLess(a, a)
  {
    if a.Str? {
      Text.LexLessIrreflexive(a.s);
    }
  }

  lemma KeyLessTransitive(a: Value, b: Value, c: Value)
    requires KeyLess(a, b) && KeyLess(b, c)
    ensures KeyLess(a, c)
  {
    if a.Str? && b.Str? && c.Str? {
      Text.LexLessTransitive(a.s, b.s, c.s);
    }
  }

  lemma KeyLessTotal(a: Value, b: Value)
    requires a != b
    ensures KeyLess(a, b) || KeyLess(b, a)
  {
    if a.Str? && b.Str? {
      Text.LexLessTotal(a.s, b.s);
    }
  }

  ghost predicate StrictlyIncreasing(s: seq<Value>) {
    forall i, j :: 0 <= i < j < |s| ==> KeyLess(s[i], s[j])
  }

  /** Inserts `x` into a strictly increasing list, unless it is already
      there. */
  function InsertKey(x: Value, s: seq<Value>): (r: seq<Value>)
    requires StrictlyIncreasing(s)
    ensures StrictlyIncreasing(r)
    ensures forall y :: y in r <==> y in s || y == x
  {
    if |s| == 0 then [x]
    else if x == s[0] then s
    else if KeyLess(x, s[0]) then
      InsertFront(x, s);
      [x] + s
    else
      KeyLessTotal(x, s[0]);
      var t := InsertKey(x, s[1..]);
      InsertBehind(s[0], t, s[1..], x);
      [s[0]] + t
  }

  lemma InsertFront(x: Value, s: seq<Value>)
    requires StrictlyIncreasing(s) && |s| > 0 && KeyLess(x, s[0])
    ensures StrictlyIncreasing([x] + s)
  {
    var r := [x] + s;
    forall i, j | 0 <= i < j < |r|
      ensures KeyLess(r[i], r[j])
    {
      if i == 0 && j > 1 {
        KeyLessTransitive(x, s[0], s[j - 1]);
      }
    }
  }

  lemma InsertBehind(h: Value, t: seq<Value>, s: seq<Value>, x: Value)
    requires StrictlyIncreasing(t) && StrictlyIncreasing([h] + s) && KeyLess(h, x)
    requires forall y :: y in t <==> y in s || y == x
    ensures StrictlyIncreasing([h] + t)
  {
    var r := [h] + t;
    forall i, j | 0 <= i < j < |r|
      ensures KeyLess(r[i], r[j])
    {
      if i == 0 {
        var y := t[j - 1];
        assert y in t;
        if y != x {
          var k :| 0 <= k < |s| && s[k] == y;
          var hs := [h] + s;
          assert hs[0] == h && hs[k + 1] == y;
          assert KeyLess(hs[0], hs[k + 1]);
        }
      } else {
        assert r[i] == t[i - 1] && r[j] == t[j - 1];
      }
    }
  }

  /** `sorted(xs)` of a collection of distinct keys (when Python can compare
      them): the same elements, strictly increasing. */
  function SortKeys(xs: seq<Value>): (r: seq<Value>)
    ensures StrictlyIncreasing(r)
    ensures forall y :: y in r <==> y in xs
  {
    if |xs| == 0 then []
    else InsertKey(xs[|xs| - 1], SortKeys(xs[..|xs| - 1]))
  }

  /** Sorting a list that holds both a string and a number makes Python
      compare the two kinds and raise `TypeError`. */
  ghost predicate Mixed(xs: seq<Value>) {
    exists i, j :: 0 <= i < |xs| && 0 <= j < |xs| && xs[i].Str? && xs[j].Int?
  }

  function SortSuspicious(xs: seq<Value>): (r: Result<seq<Value>>)
    requires forall i :: 0 <= i < |xs| ==> xs[i].Str? || xs[i].Int?
    ensures r.Failure? <==> Mixed(xs)
    ensures r.Success? ==> StrictlyIncreasing(r.value) && forall y :: y in r.value <==> y in xs
  {
    if exists i, j :: 0 <= i < |xs| && 0 <= j < |xs| && xs[i].Str? && xs[j].Int? then Failure("TypeError")
    else Success(SortKeys(xs))
  }

  /** The keys of a counter whose count reaches `SuspiciousFrom`. */
  function Suspicious(c: Tally.Counter<Value>): (ks: seq<Value>)
    ensures forall k :: k in ks <==> exists i :: 0 <= i < |c| && c[i].0 == k && c[i].1 >= SuspiciousFrom
  {
    if |c| == 0 then []
    else
      var rest := Suspicious(c[1..]);
      assert forall i :: 0 <= i < |c| - 1 ==> c[1..][i] == c[i + 1];
      if c[0].1 >= SuspiciousFrom then [c[0].0] + rest else rest
  }

  /** `analyze(records)` without the percentages. */
  function Analyze(ps: seq<Parsed>): (r: LogStats)
    ensures r.total == |ps|
    ensures r.success == |Seqs.Filter(ps, IsSuccess)| && r.fail == r.total - r.success
    ensures Tally.Total(r.failByIp) == r.fail && Tally.Total(r.failByUser) == r.fail
    ensures Tally.Keys(r.failByIp) == Tally.Dedup(Seqs.Map(Seqs.Filter(ps, IsFailure), IpBucket))
    ensures Tally.Keys(r.failByUser) == Tally.Dedup(Seqs.Map(Seqs.Filter(ps, IsFailure), UserBucket))
    ensures forall k :: Tally.Get(r.failByIp, k) == Tally.Count(Seqs.Map(Seqs.Filter(ps, IsFailure), IpBucket), k)
    ensures forall k :: Tally.Get(r.failByUser, k) == Tally.Count(Seqs.Map(Seqs.Filter(ps, IsFailure), UserBucket), k)
    ensures r.suspicious.Failure? <==> Mixed(Suspicious(r.failByIp))
    ensures r.suspicious.Success? ==> StrictlyIncreasing(r.suspicious.value)
    ensures r.suspicious.Success? ==>
      forall k :: k in r.suspicious.value <==> Tally.Get(r.failByIp, k) >= SuspiciousFrom
  {
    var fails := Seqs.Filter(ps, IsFailure);
    SuccessFailSplit(ps);
    var byIp := Tally.Tally(Seqs.Map(fails, IpBucket));
    var byUser := Tally.Tally(Seqs.Map(fails, UserBucket));
    Tally.TallyKeys(Seqs.Map(fails, IpBucket));
    Tally.TallyKeys(Seqs.Map(fails, UserBucket));
    forall k
      ensures Tally.Get(byIp, k) == Tally.Count(Seqs.Map(fails, IpBucket), k)
      ensures Tally.Get(byUser, k) == Tally.Count(Seqs.Map(fails, UserBucket), k)
    {
      Tally.TallyGet(Seqs.Map(fails, IpBucket), k);
      Tally.TallyGet(Seqs.Map(fails, UserBucket), k);
    }
    var sus := Suspicious(byIp);
    BucketKeys(fails);
    SuspiciousGet(byIp, fails);
    var success := |Seqs.Filter(ps, IsSuccess)|;
    LogStats(|ps|, success, |ps| - success, byIp, byUser, SortSuspicious(sus))
  }

  /** Every record is a success or a failure, never both. */
  lemma {:induction false} SuccessFailSplit(ps: seq<Parsed>)
    ensures |Seqs.Filter(ps, IsSuccess)| + |Seqs.Filter(ps, IsFailure)| == |ps|
  {
    if |ps| > 0 {
      SuccessFailSplit(ps[..|ps| - 1]);
      assert ps == ps[..|ps| - 1] + [ps[|ps| - 1]];
      Seqs.FilterAppend(ps[..|ps| - 1], [ps[|ps| - 1]], IsSuccess);
      Seqs.FilterAppend(ps[..|ps| - 1], [ps[|ps| - 1]], IsFailure);
    }
  }

  /** The per-IP counter's keys are buckets, so strings or numbers. */
  lemma BucketKeys(fails: seq<Parsed>)
    ensures forall i :: 0 <= i < |Tally.Tally(Seqs.Map(fails, IpBucket))| ==>
      Tally.Tally(Seqs.Map(fails, IpBucket))[i].0.Str? || Tally.Tally(Seqs.Map(fails, IpBucket))[i].0.Int?
  {
    var xs := Seqs.Map(fails, IpBucket);
    var c := Tally.Tally(xs);
    Tally.TallyDistinct(xs);
    forall i | 0 <= i < |c|
      ensures c[i].0.Str? || c[i].0.Int?
    {
      assert Tally.Keys(c)[i] == c[i].0;
      assert c[i].0 in xs;
    }
  }

  /** A key is suspicious exactly when its count reaches the threshold. */
  lemma SuspiciousGet(c: Tally.Counter<Value>, fails: seq<Parsed>)
    requires c == Tally.Tally(Seqs.Map(fails, IpBucket))
    ensures forall i :: 0 <= i < |Suspicious(c)| ==> Suspicious(c)[i].Str? || Suspicious(c)[i].Int?
    ensures forall k :: k in Suspicious(c) <==> Tally.Get(c, k) >= SuspiciousFrom
  {
    Tally.TallyDistinct(Seqs.Map(fails, IpBucket));
    forall k
      ensures k in Suspicious(c) <==> Tally.Get(c, k) >= SuspiciousFrom
    {
      SuspiciousAt(c, k);
    }
    BucketKeys(fails);
    SuspiciousKinds(c);
  }

  /** One key at a time: listed exactly when its count reaches the threshold. */
  lemma SuspiciousAt(c: Tally.Counter<Value>, k: Value)
    requires Tally.DistinctKeys(c)
    ensures k in Suspicious(c) <==> Tally.Get(c, k) >= SuspiciousFrom
  {
    if exists i :: 0 <= i < |c| && c[i].0 == k {
      var i :| 0 <= i < |c| && c[i].0 == k;
      Tally.GetAt(c, i);
    } else {
      Tally.GetAbsent(c, k);
    }
  }

  /** The suspicious keys are taken from the counter, so they are strings or
      numbers when its keys are. */
  lemma SuspiciousKinds(c: Tally.Counter<Value>)
    requires forall i :: 0 <= i < |c| ==> c[i].0.Str? || c[i].0.Int?
    ensures forall i :: 0 <= i < |Suspicious(c)| ==> Suspicious(c)[i].Str? || Suspicious(c)[i].Int?
  {
    forall i | 0 <= i < |Suspicious(c)|
      ensures Suspicious(c)[i].Str? || Suspicious(c)[i].Int?
    {
      var k := Suspicious(c)[i];
      assert k in Suspicious(c);
      var j :| 0 <= j < |c| && c[j].0 == k && c[j].1 >= SuspiciousFrom;
    }
  }

  /** A failure with a missing or empty IP is counted under "unknown". */
  lemma UnknownBucket(p: Parsed)
    requires Falsy(p.ip)
    ensures IpBucket(p) == Unknown
  {
  }
}

/** The final project's log analyser (`analyzer.py`): row normalisation,
    the summary counts, and `detect_and_block`, which decides a verdict per
    IP from its FAIL rows with three deque windows and merges the verdicts
    into the stored blacklist. */
module FinalAnalyzer {
  import opened Base
  import Text
  import Seqs
  import Tally
  import opened Windows
  import opened FinalStorage

  // ---------------------------------------------------------------------
  // Rows
  // ---------------------------------------------------------------------

  /** A parsed log row: `(dt, username, ip, result)` with the time in seconds. */
  datatype Row = Row(ts: int, user: string, ip: string, result: string)

  /** `_parse_row`'s result field: surrounding white space removed, then
      upper-cased, so " fail " and "Fail" both read as "FAIL". */
  function NormalizeResult(raw: string): (r: string)
    ensures exists s :: Text.IsStripOf(s, raw) && |r| == |s| && forall k :: 0 <= k < |r| ==> r[k] == Text.UpperChar(s[k])
    ensures forall k :: 0 <= k < |r| ==> !Text.IsLowerAscii(r[k])
    ensures |r| == 0 || (!Text.IsSpace(r[0]) && !Text.IsSpace(r[|r| - 1]))
    ensures |r| <= |raw|
  {
    var s := Text.Strip(raw);
    var r := Text.Upper(s);
    assert |s| > 0 ==> !Text.IsSpace(s[0]) && !Text.IsSpace(s[|s| - 1]);
    assert forall k :: 0 <= k < |r| ==> r[k] == Text.UpperChar(s[k]);
    r
  }

  /** Any spelling of a result word, in any mix of cases and with any white
      space around it, reads as the upper-case word: " fail " and "Fail"
      are both "FAIL". */
  lemma NormalizeResultReads(pre: string, word: string, post: string, target: string)
    requires forall i :: 0 <= i < |pre| ==> Text.IsSpace(pre[i])
    requires forall i :: 0 <= i < |post| ==> Text.IsSpace(post[i])
    requires |target| > 0 && Text.IsUpperAscii(target[0]) && Text.IsUpperAscii(target[|target| - 1])
    requires Text.Upper(word) == target
    ensures NormalizeResult(pre + word + post) == target
  {
    Text.UpperLetter(word, 0);
    Text.UpperLetter(word, |word| - 1);
    Text.StripPadded(pre, word, post);
    NormalizeStripped(pre + word + post, word);
  }

  lemma NormalizeStripped(raw: string, w: string)
    requires Text.Strip(raw) == w
    ensures NormalizeResult(raw) == Text.Upper(w)
  {
  }

  /** Normalising twice changes nothing: a normalised result has no
      surrounding white space and no lower-case letters. */
  lemma NormalizeResultIdempotent(raw: string)
    ensures NormalizeResult(NormalizeResult(raw)) == NormalizeResult(raw)
  {
    var s := Text.Strip(raw);
    Text.StripIdempotent(raw);
    Text.UpperKeepsStrip(s);
    Text.UpperOfUpper(Text.Upper(s));
  }

  /** `_parse_row` on the four fields of a CSV line, the timestamp already
      converted to seconds. */
  function ParseRow(ts: int, user: string, ip: string, rawResult: string): (r: Row)
    ensures r.ts == ts && r.user == user && r.ip == ip
    ensures r.result == NormalizeResult(rawResult)
  {
    Row(ts, user, ip, NormalizeResult(rawResult))
  }

  // ---------------------------------------------------------------------
  // analyze
  // ---------------------------------------------------------------------

  datatype Summary = Summary(
    total: nat,
    success: nat,
    fail: nat,
    perIpFail: Tally.Counter<string>,
    perUserFail: Tally.Counter<string>)

  predicate IsFail(r: Row) { r.result == "FAIL" }
  predicate IsSuccess(r: Row) { r.result == "SUCCESS" }

  function FailRows(recs: seq<Row>): (r: seq<Row>)
    ensures |r| <= |recs|
  {
    Seqs.Filter(recs, IsFail)
  }

  function IpOf(r: Row): string { r.ip }
  function UserOf(r: Row): string { r.user }

  /** `analyze`: the number of rows, of "SUCCESS" rows and of "FAIL" rows,
      and the FAIL rows counted per IP and per user, largest first. Rows
      with any other result count only towards the total. */
  function Analyze(recs: seq<Row>): (s: Summary)
    ensures s.total == |recs|
    ensures s.success == |Seqs.Filter(recs, IsSuccess)| && s.fail == |FailRows(recs)|
    ensures s.success + s.fail <= s.total
    ensures Tally.Total(s.perIpFail) == s.fail && Tally.Total(s.perUserFail) == s.fail
    ensures Tally.NonIncreasing(s.perIpFail) && Tally.NonIncreasing(s.perUserFail)
    ensures multiset(s.perIpFail) == multiset(Tally.Tally(Seqs.Map(FailRows(recs), IpOf)))
    ensures multiset(s.perUserFail) == multiset(Tally.Tally(Seqs.Map(FailRows(recs), UserOf)))
    ensures forall ip :: Tally.Get(s.perIpFail, ip) == Tally.Count(Seqs.Map(FailRows(recs), IpOf), ip)
    ensures forall u :: Tally.Get(s.perUserFail, u) == Tally.Count(Seqs.Map(FailRows(recs), UserOf), u)
  {
    var fails := FailRows(recs);
    var successes := Seqs.Filter(recs, IsSuccess);
    FailSuccessDisjoint(recs);
    var byIp := Tally.Tally(Seqs.Map(fails, IpOf));
    var byUser := Tally.Tally(Seqs.Map(fails, UserOf));
    SortedCounts(Seqs.Map(fails, IpOf));
    SortedCounts(Seqs.Map(fails, UserOf));
    Summary(|recs|, |successes|, |fails|, Tally.SortDesc(byIp), Tally.SortDesc(byUser))
  }

  /** Sorting a tally by count keeps every key's count. */
  lemma SortedCounts(xs: seq<string>)
    ensures forall k :: Tally.Get(Tally.SortDesc(Tally.Tally(xs)), k) == Tally.Count(xs, k)
  {
    var c := Tally.Tally(xs);
    Tally.TallyDistinct(xs);
    forall k
      ensures Tally.Get(Tally.SortDesc(c), k) == Tally.Count(xs, k)
    {
      Tally.GetPermutation(c, Tally.SortDesc(c), k);
      Tally.TallyGet(xs, k);
    }
  }

  lemma {:induction false} FailSuccessDisjoint(recs: seq<Row>)
    ensures |Seqs.Filter(recs, IsSuccess)| + |FailRows(recs)| <= |recs|
  {
    if |recs| > 0 {
      FailSuccessDisjoint(recs[1..]);
    }
  }

  /** The FAIL rows from `ip`. */
  function FailFrom(ip: string): Row -> bool {
    (r: Row) => IsFail(r) && r.ip == ip
  }

  /** The FAIL rows against user `u`. */
  function FailAgainst(u: string): Row -> bool {
    (r: Row) => IsFail(r) && r.user == u
  }

  /** The per-IP FAIL count of `analyze` is the number of FAIL rows from
      that IP (zero for an IP that never failed). */
  lemma AnalyzePerIp(recs: seq<Row>, ip: string)
    ensures Tally.Get(Analyze(recs).perIpFail, ip) == |Seqs.Filter(recs, FailFrom(ip))|
  {
    Tally.CountMapFilter(recs, IsFail, IpOf, ip, FailFrom(ip));
  }

  /** The per-user FAIL count of `analyze` is the number of FAIL rows
      against that user. */
  lemma AnalyzePerUser(recs: seq<Row>, u: string)
    ensures Tally.Get(Analyze(recs).perUserFail, u) == |Seqs.Filter(recs, FailAgainst(u))|
  {
    Tally.CountMapFilter(recs, IsFail, UserOf, u, FailAgainst(u));
  }

  // ---------------------------------------------------------------------
  // The deque windows of detect_and_block
  // ---------------------------------------------------------------------

  /** Occurrences of user `u` among the failures evs[lo..hi]. */
  function Occ(evs: seq<Fail>, lo: nat, hi: nat, u: string): nat
    requires lo <= hi <= |evs|
    decreases hi - lo
  {
    if lo == hi then 0
    else Occ(evs, lo, hi - 1, u) + (if evs[hi - 1].user == u then 1 else 0)
  }

  lemma {:induction false} OccDropFirst(evs: seq<Fail>, lo: nat, hi: nat, u: string)
    requires lo < hi <= |evs|
    ensures Occ(evs, lo, hi, u) == (if evs[lo].user == u then 1 else 0) + Occ(evs, lo + 1, hi, u)
    decreases hi - lo
  {
    if lo + 1 < hi {
      OccDropFirst(evs, lo, hi - 1, u);
    }
  }

  /** A user occurs in a window exactly when it is one of the window's users. */
  lemma {:induction false} OccPositive(evs: seq<Fail>, lo: nat, hi: nat, u: string)
    requires lo <= hi <= |evs|
    ensures Occ(evs, lo, hi, u) > 0 <==> u in Users(evs, lo, hi)
    decreases hi - lo
  {
    if lo < hi {
      OccPositive(evs, lo, hi - 1, u);
      if evs[hi - 1].user == u {
        assert u in Users(evs, lo, hi);
      } else if u in Users(evs, lo, hi) {
        var k :| lo <= k < hi && evs[k].user == u;
        assert u in Users(evs, lo, hi - 1);
      }
    }
  }

  /** `users_window` describes the window evs[lo..hi]: its keys are the
      window's users and each value is that user's multiplicity, so no
      entry is zero. */
  ghost predicate Counts(evs: seq<Fail>, lo: nat, hi: nat, uw: map<string, int>)
    requires lo <= hi <= |evs|
  {
    uw.Keys == Users(evs, lo, hi) && forall u :: u in uw ==> uw[u] == Occ(evs, lo, hi, u)
  }

  /** Every value of `users_window` is positive. */
  lemma CountsPositive(evs: seq<Fail>, lo: nat, hi: nat, uw: map<string, int>, u: string)
    requires lo <= hi <= |evs| && Counts(evs, lo, hi, uw) && u in uw
    ensures uw[u] >= 1
  {
    OccPositive(evs, lo, hi, u);
  }

  /** `users_window[user] = users_window.get(user, 0) + 1`. */
  function AddUser(uw: map<string, int>, u: string): map<string, int> {
    uw[u := (if u in uw then uw[u] else 0) + 1]
  }

  /** `users_window[old] -= 1`, deleting the entry once it drops to zero. */
  function DropUser(uw: map<string, int>, u: string): map<string, int> {
    var c := (if u in uw then uw[u] else 0) - 1;
    if c <= 0 then uw - {u} else uw[u := c]
  }

  lemma AddUserCounts(evs: seq<Fail>, lo: nat, hi: nat, uw: map<string, int>)
    requires lo <= hi < |evs| && Counts(evs, lo, hi, uw)
    ensures Counts(evs, lo, hi + 1, AddUser(uw, evs[hi].user))
  {
    var u := evs[hi].user;
    var uw' := AddUser(uw, u);
    forall v | v in uw'
      ensures uw'[v] == Occ(evs, lo, hi + 1, v)
    {
      if v == u && u !in uw {
        OccPositive(evs, lo, hi, u);
      }
    }
    forall v
      ensures v in uw' <==> v in Users(evs, lo, hi + 1)
    {
      if v in Users(evs, lo, hi + 1) && v != u {
        var k :| lo <= k < hi + 1 && evs[k].user == v;
        assert v in Users(evs, lo, hi);
      }
      if v == u {
        assert v in Users(evs, lo, hi + 1);
      }
    }
  }

  lemma DropUserCounts(evs: seq<Fail>, lo: nat, hi: nat, uw: map<string, int>)
    requires lo < hi <= |evs| && Counts(evs, lo, hi, uw)
    ensures Counts(evs, lo + 1, hi, DropUser(uw, evs[lo].user))
  {
    var u := evs[lo].user;
    var uw' := DropUser(uw, u);
    OccDropFirst(evs, lo, hi, u);
    OccPositive(evs, lo, hi, u);
    OccPositive(evs, lo + 1, hi, u);
    forall v | v in uw'
      ensures uw'[v] == Occ(evs, lo + 1, hi, v)
    {
      OccDropFirst(evs, lo, hi, v);
    }
    forall v
      ensures v in uw' <==> v in Users(evs, lo + 1, hi)
    {
      OccDropFirst(evs, lo, hi, v);
      OccPositive(evs, lo, hi, v);
      OccPositive(evs, lo + 1, hi, v);
    }
  }

  /** No event before `lo` is within `w` seconds of event `k`. */
  ghost predicate TooOld(ts: seq<int>, lo: nat, k: nat, w: int) {
    forall m :: 0 <= m < lo <= k < |ts| ==> ts[k] - ts[m] > w
  }

  ghost predicate TooOldOf(evs: seq<Fail>, lo: nat, k: nat, w: int) {
    forall m :: 0 <= m < lo <= k < |evs| ==> evs[k].ts - evs[m].ts > w
  }

  /** Before event `k` is processed, the deque `q` holds ts[lo..k] and every
      event it has dropped is too old for event `k`. */
  ghost predicate TimeDeque(ts: seq<int>, q: seq<int>, lo: nat, k: nat, w: int) {
    lo <= k <= |ts| && q == ts[lo..k] && TooOld(ts, lo, k, w)
  }

  /** The same for the deque of (time, user) pairs, whose `users_window`
      map counts the users it holds. */
  ghost predicate UserDeque(evs: seq<Fail>, q: seq<Fail>, uw: map<string, int>, lo: nat, k: nat, w: int) {
    lo <= k <= |evs| && q == evs[lo..k] && TooOldOf(evs, lo, k, w) && Counts(evs, lo, k, uw)
  }

  /** One deque of timestamps: drop from the front while the oldest is more
      than `w` seconds older than event `k`, then append event `k`. The deque
      then holds the longest window ending at `k`. */
  method SlideTimes(ts: seq<int>, q: seq<int>, k: nat, w: int, ghost n: int, ghost lo: nat)
    returns (q': seq<int>, ghost lo': nat)
    requires Sorted(ts) && k < |ts| && w >= 0 && TimeDeque(ts, q, lo, k, w)
    ensures lo' <= k && TimeDeque(ts, q', lo', k + 1, w) && LeftEnd(ts, lo', k, w)
    ensures |q'| == k + 1 - lo'
    ensures BurstUpTo(ts, k + 1, w, n) <==> BurstUpTo(ts, k, w, n) || |q'| >= n
  {
    var dt := ts[k];
    q' := q;
    lo' := lo;
    while |q'| > 0 && dt - q'[0] > w
      invariant lo' <= k && q' == ts[lo'..k] && TooOld(ts, lo', k, w)
      decreases |q'|
    {
      q' := q'[1..];
      lo' := lo' + 1;
    }
    q' := q' + [dt];
    BurstStep(ts, lo', k, w, n);
    if k + 1 < |ts| {
      assert ts[k] <= ts[k + 1];
    }
  }

  /** The deque of (time, user) pairs, keeping `users_window` in step. */
  method SlideUsers(evs: seq<Fail>, q: seq<Fail>, uw: map<string, int>, k: nat, w: int, ghost n: int, ghost lo: nat)
    returns (q': seq<Fail>, uw': map<string, int>, ghost lo': nat)
    requires InTimeOrder(evs) && k < |evs| && w >= 0 && UserDeque(evs, q, uw, lo, k, w)
    ensures lo' <= k && UserDeque(evs, q', uw', lo', k + 1, w) && LeftEndOf(evs, lo', k, w)
    ensures |uw'.Keys| == |Users(evs, lo', k + 1)|
    ensures ScatterUpTo(evs, k + 1, w, n) <==> ScatterUpTo(evs, k, w, n) || |uw'.Keys| >= n
  {
    q', uw', lo' := DropOldUsers(evs, q, uw, k, w, lo);
    AddUserCounts(evs, lo', k, uw');
    q' := q' + [evs[k]];
    uw' := AddUser(uw', evs[k].user);
    ScatterStep(evs, lo', k, w, n);
    if k + 1 < |evs| {
      assert evs[k].ts <= evs[k + 1].ts;
    }
  }

  /** The `popleft` loop of the users deque. */
  method DropOldUsers(evs: seq<Fail>, q: seq<Fail>, uw: map<string, int>, k: nat, w: int, ghost lo: nat)
    returns (q': seq<Fail>, uw': map<string, int>, ghost lo': nat)
    requires k < |evs| && w >= 0 && UserDeque(evs, q, uw, lo, k, w)
    ensures lo' <= k && UserDeque(evs, q', uw', lo', k, w) && evs[k].ts - evs[lo'].ts <= w
  {
    var dt := evs[k].ts;
    q' := q;
    uw' := uw;
    lo' := lo;
    while |q'| > 0 && dt - q'[0].ts > w
      invariant UserDeque(evs, q', uw', lo', k, w)
      decreases |q'|
    {
      var oldUser := q'[0].user;
      DropUserCounts(evs, lo', k, uw');
      q' := q'[1..];
      uw' := DropUser(uw', oldUser);
      lo' := lo' + 1;
    }
  }

  /** The three deques and the two flags of `detect_and_block`'s per-IP loop. */
  datatype ScanState = ScanState(
    q5: seq<int>, q24: seq<int>, q10: seq<Fail>, usersWindow: map<string, int>,
    perm: bool, temp: bool)

  /** After `k` failures the deques hold the longest windows ending at the
      last one, and the flags record whether any window so far reached its
      threshold. */
  ghost predicate ScanInv(evs: seq<Fail>, ts: seq<int>, k: nat, st: ScanState, lo5: nat, lo24: nat, lo10: nat) {
    && k <= |evs| && ts == Times(evs)
    && TimeDeque(ts, st.q5, lo5, k, 300)
    && TimeDeque(ts, st.q24, lo24, k, 86400)
    && UserDeque(evs, st.q10, st.usersWindow, lo10, k, 600)
    && (st.perm <==> BurstUpTo(ts, k, 86400, 30))
    && (st.temp <==> BurstUpTo(ts, k, 300, 10) || ScatterUpTo(evs, k, 600, 5))
  }

  lemma ScanStart(evs: seq<Fail>)
    ensures ScanInv(evs, Times(evs), 0, ScanState([], [], [], map[], false, false), 0, 0, 0)
  {
    assert Users(evs, 0, 0) == {};
  }

  /** One iteration of the per-IP loop. */
  method ScanStep(evs: seq<Fail>, ts: seq<int>, k: nat, st: ScanState, ghost lo5: nat, ghost lo24: nat, ghost lo10: nat)
    returns (st': ScanState, ghost lo5': nat, ghost lo24': nat, ghost lo10': nat)
    requires InTimeOrder(evs) && Sorted(ts) && k < |evs|
    requires ScanInv(evs, ts, k, st, lo5, lo24, lo10)
    ensures ScanInv(evs, ts, k + 1, st', lo5', lo24', lo10')
  {
    var q5, q24, q10, usersWindow;
    q5, lo5' := SlideTimes(ts, st.q5, k, 300, 10, lo5);
    q24, lo24' := SlideTimes(ts, st.q24, k, 86400, 30, lo24);
    q10, usersWindow, lo10' := SlideUsers(evs, st.q10, st.usersWindow, k, 600, 5, lo10);
    var perm := st.perm;
    var temp := st.temp;
    if |q24| >= 30 {
      perm := true;
    }
    if |q5| >= 10 {
      temp := true;
    }
    if |usersWindow.Keys| >= 5 {
      temp := true;
    }
    st' := ScanState(q5, q24, q10, usersWindow, perm, temp);
  }

  /** The per-IP loop of `detect_and_block`: every FAIL of the IP, oldest
      first, passes through the 5-minute, 24-hour and 10-minute deques; the
      IP earns "perm" if the 24-hour deque ever holds 30 failures and "temp"
      if the 5-minute deque ever holds 10 or the 10-minute window ever names
      5 distinct users. */
  method ScanIp(evs: seq<Fail>) returns (perm: bool, temp: bool)
    requires InTimeOrder(evs)
    ensures perm <==> Burst(Times(evs), 86400, 30)
    ensures temp <==> Burst(Times(evs), 300, 10) || Scatter(evs, 600, 5)
  {
    var ts := Times(evs);
    TimesSorted(evs);
    var st := ScanState([], [], [], map[], false, false);
    ghost var lo5: nat, lo24: nat, lo10: nat := 0, 0, 0;
    ScanStart(evs);
    var k := 0;
    while k < |evs|
      invariant ScanInv(evs, ts, k, st, lo5, lo24, lo10)
    {
      st, lo5, lo24, lo10 := ScanStep(evs, ts, k, st, lo5, lo24, lo10);
      k := k + 1;
    }
    perm, temp := st.perm, st.temp;
  }

  // ---------------------------------------------------------------------
  // detect_and_block
  // ---------------------------------------------------------------------

  function ToFail(r: Row): Fail { Fail(r.ts, r.user) }

  /** The rows of one IP. */
  function FromIp(ip: string): Row -> bool {
    (r: Row) => r.ip == ip
  }
  function FailTime(e: Fail): int { e.ts }

  /** `by_ip[ip]` after `events.sort(key=time)`: the IP's FAIL rows as
      (time, user) pairs, oldest first. */
  function IpEvents(recs: seq<Row>, ip: string): (evs: seq<Fail>)
    ensures InTimeOrder(evs)
  {
    var evs := Seqs.SortBy(Seqs.Map(Seqs.Filter(FailRows(recs), FromIp(ip)), ToFail), FailTime);
    assert forall i, j :: 0 <= i <= j < |evs| ==> FailTime(evs[i]) <= FailTime(evs[j]);
    evs
  }

  const PermRecord: BlackRecord := BlackRecord(Some(Perm), NoStamp)

  /** The record `detect_and_block` wants for an IP with these failures:
      "perm" when some 24 hours hold 30 of them; otherwise "temp" until an
      hour after the latest failure when some 5 minutes hold 10 of them or
      some 10 minutes name 5 distinct users; otherwise none. */
  ghost function Verdict(evs: seq<Fail>): Option<BlackRecord> {
    if Burst(Times(evs), 86400, 30) then Some(PermRecord)
    else if Burst(Times(evs), 300, 10) || Scatter(evs, 600, 5) then
      Some(BlackRecord(Some(Temp), At(evs[|evs| - 1].ts + 3600)))
    else None
  }

  /** The source's merge test: a present, non-empty record of the same type
      is kept; anything else is overwritten with the verdict. */
  predicate Keeps(black: Blacklist, ip: string, rec: BlackRecord) {
    ip in black && black[ip] != BlackRecord(None, NoStamp) && black[ip].kind == rec.kind
  }

  /** The blacklist after merging the verdicts. */
  ghost predicate Merged(black: Blacklist, toBlock: map<string, BlackRecord>, black': Blacklist) {
    && (forall ip :: ip in black' <==> ip in black || ip in toBlock)
    && (forall ip :: ip in toBlock ==> black'[ip] == if Keeps(black, ip, toBlock[ip]) then black[ip] else toBlock[ip])
    && (forall ip :: ip in black && ip !in toBlock ==> black'[ip] == black[ip])
  }

  /** `detect_and_block`: groups the FAIL rows by IP, scans each IP's
      failures in time order, and returns the verdicts; the stored blacklist
      gets every verdict whose IP is absent, holds an empty record, or holds
      a record of another type (so a "perm" entry can be downgraded to
      "temp"), and it is written back exactly when one of those happened. */
  method DetectAndBlock(recs: seq<Row>, black: Blacklist)
    returns (toBlock: map<string, BlackRecord>, black': Blacklist, changed: bool)
    ensures forall ip :: ip in toBlock <==> Verdict(IpEvents(recs, ip)).Some?
    ensures forall ip :: ip in toBlock ==> toBlock[ip] == Verdict(IpEvents(recs, ip)).value
    ensures Merged(black, toBlock, black')
    ensures changed <==> exists ip :: ip in toBlock && !Keeps(black, ip, toBlock[ip])
    ensures !changed ==> black' == black
  {
    var ips := Tally.Dedup(Seqs.Map(FailRows(recs), IpOf));
    Tally.DedupSpec(Seqs.Map(FailRows(recs), IpOf));
    toBlock := Verdicts(recs, ips);
    forall ip | ip !in ips
      ensures Verdict(IpEvents(recs, ip)).None?
    {
      NoFailsNoVerdict(recs, ip);
    }
    black', changed := MergeVerdicts(black, toBlock, ips);
  }

  /** The first loop of `detect_and_block`: a verdict for each IP of `ips`
      that earns one. */
  method Verdicts(recs: seq<Row>, ips: seq<string>) returns (toBlock: map<string, BlackRecord>)
    ensures forall ip :: ip in toBlock ==> ip in ips
    ensures forall ip :: ip in ips ==> (ip in toBlock <==> Verdict(IpEvents(recs, ip)).Some?)
    ensures forall ip :: ip in toBlock ==> toBlock[ip] == Verdict(IpEvents(recs, ip)).value
  {
    var vs := VerdictList(recs, ips);
    forall i, j | 0 <= i < |ips| && 0 <= j < |ips| && ips[i] == ips[j]
      ensures vs[i] == vs[j]
    {
      VerdictsOfAt(recs, ips, i);
      VerdictsOfAt(recs, ips, j);
    }
    toBlock := Collect(ips, vs);
    CollectedVerdicts(recs, ips, vs, toBlock);
  }

  /** The verdicts of `ips`, one per IP, in order. */
  ghost function VerdictsOf(recs: seq<Row>, ips: seq<string>): (vs: seq<Option<BlackRecord>>)
    ensures |vs| == |ips|
  {
    if |ips| == 0 then []
    else VerdictsOf(recs, ips[..|ips| - 1]) + [Verdict(IpEvents(recs, ips[|ips| - 1]))]
  }

  /** The `i`-th verdict is that of the `i`-th IP. */
  lemma {:induction false} VerdictsOfAt(recs: seq<Row>, ips: seq<string>, i: nat)
    requires i < |ips|
    ensures VerdictsOf(recs, ips)[i] == Verdict(IpEvents(recs, ips[i]))
  {
    var n := |ips| - 1;
    var pre := ips[..n];
    var vs := VerdictsOf(recs, pre);
    assert VerdictsOf(recs, ips) == vs + [Verdict(IpEvents(recs, ips[n]))];
    if i < n {
      assert pre[i] == ips[i];
      VerdictsOfAt(recs, pre, i);
    }
  }

  /** The verdict of each IP of `ips`, in order. */
  method VerdictList(recs: seq<Row>, ips: seq<string>) returns (vs: seq<Option<BlackRecord>>)
    ensures vs == VerdictsOf(recs, ips)
  {
    vs := [];
    while |vs| < |ips|
      invariant |vs| <= |ips| && vs == VerdictsOf(recs, ips[..|vs|])
    {
      var v := IpVerdict(recs, ips[|vs|]);
      assert ips[..|vs| + 1][..|vs|] == ips[..|vs|];
      vs := vs + [v];
    }
    assert ips[..|vs|] == ips;
  }

  /** The verdict for one IP of the log. */
  method IpVerdict(recs: seq<Row>, ip: string) returns (v: Option<BlackRecord>)
    ensures v == Verdict(IpEvents(recs, ip))
  {
    v := VerdictOf(IpEvents(recs, ip));
  }

  lemma CollectedVerdicts(recs: seq<Row>, ips: seq<string>, vs: seq<Option<BlackRecord>>, toBlock: map<string, BlackRecord>)
    requires vs == VerdictsOf(recs, ips)
    requires forall ip :: ip in toBlock ==> ip in ips
    requires forall i :: 0 <= i < |ips| ==> (ips[i] in toBlock <==> vs[i].Some?)
    requires forall i :: 0 <= i < |ips| && vs[i].Some? ==> toBlock[ips[i]] == vs[i].value
    ensures forall ip :: ip in ips ==> (ip in toBlock <==> Verdict(IpEvents(recs, ip)).Some?)
    ensures forall ip :: ip in toBlock ==> toBlock[ip] == Verdict(IpEvents(recs, ip)).value
  {
    forall ip | ip in ips
      ensures ip in toBlock <==> Verdict(IpEvents(recs, ip)).Some?
    {
      var i :| 0 <= i < |ips| && ips[i] == ip;
      VerdictsOfAt(recs, ips, i);
    }
    forall ip | ip in toBlock
      ensures toBlock[ip] == Verdict(IpEvents(recs, ip)).value
    {
      var i :| 0 <= i < |ips| && ips[i] == ip;
      VerdictsOfAt(recs, ips, i);
    }
  }

  /** The map from each IP to its verdict, for the IPs that have one; an IP
      listed twice has the same verdict both times. */
  function Collect(ips: seq<string>, vs: seq<Option<BlackRecord>>): (tb: map<string, BlackRecord>)
    requires |vs| == |ips|
    requires forall i, j :: 0 <= i < |ips| && 0 <= j < |ips| && ips[i] == ips[j] ==> vs[i] == vs[j]
    ensures forall ip :: ip in tb ==> ip in ips
    ensures forall i :: 0 <= i < |ips| ==> (ips[i] in tb <==> vs[i].Some?)
    ensures forall i :: 0 <= i < |ips| && vs[i].Some? ==> tb[ips[i]] == vs[i].value
  {
    if |ips| == 0 then map[]
    else
      var n := |ips| - 1;
      var tb := Collect(ips[..n], vs[..n]);
      assert forall i :: 0 <= i < n ==> ips[..n][i] == ips[i] && vs[..n][i] == vs[i];
      if vs[n].Some? then tb[ips[n] := vs[n].value] else tb
  }

  /** The verdict for one IP, from the flags of its deque scan. */
  method VerdictOf(evs: seq<Fail>) returns (v: Option<BlackRecord>)
    requires InTimeOrder(evs)
    ensures v == Verdict(evs)
  {
    var perm, temp := ScanIp(evs);
    if perm {
      v := Some(PermRecord);
    } else if temp {
      v := Some(BlackRecord(Some(Temp), At(evs[|evs| - 1].ts + 3600)));
    } else {
      v := None;
    }
  }

  /** An IP with no FAIL row gets no verdict. */
  lemma NoFailsNoVerdict(recs: seq<Row>, ip: string)
    requires ip !in Seqs.Map(FailRows(recs), IpOf)
    ensures Verdict(IpEvents(recs, ip)).None?
  {
    var mine := Seqs.Filter(FailRows(recs), FromIp(ip));
    if |mine| > 0 {
      Seqs.FilterPasses(FailRows(recs), FromIp(ip));
      Seqs.FilterIn(FailRows(recs), FromIp(ip), mine[0]);
    }
    assert |IpEvents(recs, ip)| == 0;
  }

  /** The merge loop, over the verdicts in the order they were made. */
  method MergeVerdicts(black: Blacklist, toBlock: map<string, BlackRecord>, ips: seq<string>)
    returns (black': Blacklist, changed: bool)
    requires forall ip :: ip in toBlock ==> ip in ips
    requires forall i, j :: 0 <= i < j < |ips| ==> ips[i] != ips[j]
    ensures Merged(black, toBlock, black')
    ensures changed <==> exists ip :: ip in toBlock && !Keeps(black, ip, toBlock[ip])
    ensures !changed ==> black' == black
  {
    black' := black;
    changed := false;
    var n := 0;
    while n < |ips|
      invariant n <= |ips|
      invariant forall ip :: ip in black' <==> ip in black || (ip in toBlock && ip in ips[..n])
      invariant forall ip :: ip in toBlock && ip in ips[..n] ==>
        black'[ip] == if Keeps(black, ip, toBlock[ip]) then black[ip] else toBlock[ip]
      invariant forall ip :: ip in black && !(ip in toBlock && ip in ips[..n]) ==> black'[ip] == black[ip]
      invariant changed <==> exists ip :: ip in toBlock && ip in ips[..n] && !Keeps(black, ip, toBlock[ip])
      invariant !changed ==> black' == black
    {
      var ip := ips[n];
      assert ips[..n + 1] == ips[..n] + [ip];
      assert ip !in ips[..n];
      if ip in toBlock {
        var rec := toBlock[ip];
        assert ip in black' <==> ip in black;
        assert ip in black ==> black'[ip] == black[ip];
        if ip in black' && black'[ip] != BlackRecord(None, NoStamp) {
          if black'[ip].kind != rec.kind {
            black' := black'[ip := rec];
            changed := true;
          }
        } else {
          black' := black'[ip := rec];
          changed := true;
        }
      }
      n := n + 1;
    }
    assert ips[..n] == ips;
  }

  /** The source's merge can downgrade: a stored "perm" record is replaced
      by a fresh "temp" verdict. */
  lemma MergeDowngrades(black: Blacklist, toBlock: map<string, BlackRecord>, black': Blacklist, ip: string)
    requires Merged(black, toBlock, black')
    requires ip in black && black[ip].kind == Some(Perm)
    requires ip in toBlock && toBlock[ip].kind == Some(Temp)
    ensures black'[ip] == toBlock[ip]
  {
  }

  /** A stored record of the verdict's type is kept as it was, with its old
      "until". */
  lemma MergeKeepsSameType(black: Blacklist, toBlock: map<string, BlackRecord>, black': Blacklist, ip: string)
    requires Merged(black, toBlock, black')
    requires ip in black && ip in toBlock && black[ip].kind == toBlock[ip].kind && toBlock[ip].kind.Some?
    ensures black'[ip] == black[ip]
  {
  }
}

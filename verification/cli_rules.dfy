/** The command-line analyser (`Projecto/analytics.py`): `apply_rules`,
    which runs three two-pointer window rules over each IP's failures and
    writes blocks into the loaded blacklist, and `stats`. */
module CliRules {
  import opened Base
  import Text
  import Seqs
  import Tally
  import opened Windows

  /** A log row: time in seconds, the attempted user name, the source IP and
      the result text ("success", "fail_bad_pwd", "blocked_temporary", ...). */
  datatype CliRow = CliRow(ts: int, username: string, ip: string, result: string)

  /** A blacklist entry: "type", "reason", "since" and, for temporary
      blocks, "until". */
  datatype Entry = Entry(kind: string, reason: string, since: int, until: Option<int>)

  type Blacklist = map<string, Entry>

  const Temporary: string := "temporary"
  const Permanent: string := "permanent"
  const BlockSecs: int := 3600

  const ShortReason: string := ">=10 fails/5m"
  const LongReason: string := ">=30 fails/24h"
  const ScatterReason: string := ">=5 users/10m"

  /** The entry a temporary rule writes at time `now`. */
  function TempEntry(reason: string, now: int): Entry {
    Entry(Temporary, reason, now, Some(now + BlockSecs))
  }

  /** The entry rule 2 writes: permanent, with no "until". */
  function PermEntry(now: int): Entry {
    Entry(Permanent, LongReason, now, None)
  }

  /** A result counts as a failure when it starts with "fail". */
  predicate IsFailRow(r: CliRow) {
    Text.StartsWith(r.result, "fail")
  }

  function RowTime(r: CliRow): int { r.ts }
  function ToFail(r: CliRow): Fail { Fail(r.ts, r.username) }

  function IpIs(ip: string): CliRow -> bool {
    (r: CliRow) => r.ip == ip
  }

  /** The rows of `ip`, as `by_ip[ip]` collects them. */
  function IpRows(rows: seq<CliRow>, ip: string): seq<CliRow> {
    Seqs.Filter(rows, IpIs(ip))
  }

  /** `fails` for `ip`: its rows sorted by time (stably), then the failures
      among them as (time, user) pairs. `fails_ts` is `Times` of this. */
  function FailEvents(rows: seq<CliRow>, ip: string): (evs: seq<Fail>)
    ensures InTimeOrder(evs)
  {
    var events := Seqs.SortBy(IpRows(rows, ip), RowTime);
    var failed := Seqs.Filter(events, IsFailRow);
    Seqs.FilterSorted(events, RowTime, IsFailRow);
    var evs := Seqs.Map(failed, ToFail);
    assert forall i, j :: 0 <= i <= j < |evs| ==> RowTime(failed[i]) <= RowTime(failed[j]);
    evs
  }

  /** The rows that are failures from `ip`. */
  function OwnFail(ip: string): CliRow -> bool {
    (r: CliRow) => r.ip == ip && IsFailRow(r)
  }

  /** Only the IP's own failures reach its rules: the failure list is those
      rows sorted by time, whatever the successes and the other IPs' rows. */
  lemma FailEventsOwnFailsOnly(rows: seq<CliRow>, ip: string)
    ensures FailEvents(rows, ip) == Seqs.Map(Seqs.SortBy(Seqs.Filter(rows, OwnFail(ip)), RowTime), ToFail)
  {
    var mine := IpRows(rows, ip);
    Seqs.FilterSort(mine, RowTime, IsFailRow);
    assert Seqs.Filter(Seqs.SortBy(mine, RowTime), IsFailRow) == Seqs.SortBy(Seqs.Filter(mine, IsFailRow), RowTime);
    Seqs.FilterFilter(rows, IpIs(ip), IsFailRow);
    Seqs.FilterCongruent(rows, Seqs.And(IpIs(ip), IsFailRow), OwnFail(ip));
    assert Seqs.Filter(mine, IsFailRow) == Seqs.Filter(rows, OwnFail(ip));
  }

  /** The loaded entry of `ip`, if any. */
  function Find(bl: Blacklist, ip: string): Option<Entry> {
    if ip in bl then Some(bl[ip]) else None
  }

  /** What `apply_rules` leaves for one IP, given its failures and the entry
      loaded for it: rule 1 (10 failures in 5 minutes) writes a temporary
      entry unconditionally; rule 2 (30 in 24 hours) then writes a permanent
      one unconditionally; rule 3 (5 distinct users in 10 minutes) then
      writes a temporary entry unless the entry at that point is permanent. */
  ghost function RuleOutcome(fails: seq<Fail>, now: int, loaded: Option<Entry>): Option<Entry> {
    var afterShort := if Burst(Times(fails), 300, 10) then Some(TempEntry(ShortReason, now)) else loaded;
    var afterLong := if Burst(Times(fails), 86400, 30) then Some(PermEntry(now)) else afterShort;
    if Scatter(fails, 600, 5) && !(afterLong.Some? && afterLong.value.kind == Permanent)
    then Some(TempEntry(ScatterReason, now))
    else afterLong
  }

  /** The loop body of `apply_rules` for one IP. */
  method ApplyIp(rows: seq<CliRow>, ip: string, now: int, bl: Blacklist) returns (bl': Blacklist)
    ensures Find(bl', ip) == RuleOutcome(FailEvents(rows, ip), now, Find(bl, ip))
    ensures forall other :: other != ip ==> Find(bl', other) == Find(bl, other)
  {
    var e := IpOutcome(rows, ip, now, Find(bl, ip));
    if e.Some? {
      bl' := bl[ip := e.value];
    } else {
      bl' := bl;
    }
  }

  /** The entry the three rules leave for `ip`, checked in turn against the
      entry as it stands after the previous rule; `loaded` is the entry
      before the first. */
  method IpOutcome(rows: seq<CliRow>, ip: string, now: int, loaded: Option<Entry>) returns (e: Option<Entry>)
    ensures e == RuleOutcome(FailEvents(rows, ip), now, loaded)
  {
    var fails := FailEvents(rows, ip);
    var failsTs := Times(fails);
    TimesSorted(fails);
    e := loaded;
    var short := BurstScan(failsTs, 300, 10);
    if short {
      e := Some(TempEntry(ShortReason, now));
    }
    var long := BurstScan(failsTs, 86400, 30);
    if long {
      e := Some(PermEntry(now));
    }
    var scatter := ScatterScan(fails, 600, 5);
    if scatter && !(e.Some? && e.value.kind == Permanent) {
      e := Some(TempEntry(ScatterReason, now));
    }
  }

  /** `apply_rules(rows)` at time `now` on the loaded blacklist `bl`: every
      IP ends with the outcome of its own rules, and an IP without rows
      keeps its loaded entry. */
  method ApplyRules(rows: seq<CliRow>, now: int, bl: Blacklist) returns (bl': Blacklist)
    ensures forall ip :: Find(bl', ip) == RuleOutcome(FailEvents(rows, ip), now, Find(bl, ip))
  {
    var ipsAll := Seqs.Map(rows, IpOf);
    var ips := Tally.Dedup(ipsAll);
    Tally.DedupSpec(ipsAll);
    bl' := bl;
    var n := 0;
    while n < |ips|
      invariant n <= |ips|
      invariant forall ip :: ip in ips[..n] ==> Find(bl', ip) == RuleOutcome(FailEvents(rows, ip), now, Find(bl, ip))
      invariant forall ip :: ip !in ips[..n] ==> Find(bl', ip) == Find(bl, ip)
    {
      var ip := ips[n];
      assert ips[..n + 1] == ips[..n] + [ip];
      assert ip !in ips[..n];
      bl' := ApplyIp(rows, ip, now, bl');
      n := n + 1;
    }
    assert ips[..n] == ips;
    forall ip | ip !in ips
      ensures RuleOutcome(FailEvents(rows, ip), now, Find(bl, ip)) == Find(bl, ip)
    {
      NoRowsNoFails(rows, ip);
    }
  }

  /** An IP that never appears has no failures, so nothing fires for it. */
  lemma NoRowsNoFails(rows: seq<CliRow>, ip: string)
    requires ip !in Seqs.Map(rows, IpOf)
    ensures FailEvents(rows, ip) == []
  {
    var mine := IpRows(rows, ip);
    if |mine| > 0 {
      Seqs.FilterPasses(rows, IpIs(ip));
      Seqs.FilterIn(rows, IpIs(ip), mine[0]);
    }
  }

  /** With no failures no rule fires and the loaded entry is returned as it
      was. */
  lemma NoFailsUnchanged(fails: seq<Fail>, now: int, loaded: Option<Entry>)
    requires !Burst(Times(fails), 300, 10) && !Burst(Times(fails), 86400, 30) && !Scatter(fails, 600, 5)
    ensures RuleOutcome(fails, now, loaded) == loaded
  {
  }

  /** When rule 2 fires the IP ends permanent, with no "until". */
  lemma LongRuleWins(fails: seq<Fail>, now: int, loaded: Option<Entry>)
    requires Burst(Times(fails), 86400, 30)
    ensures RuleOutcome(fails, now, loaded) == Some(PermEntry(now))
  {
  }

  /** Every entry the rules write is stamped with `now`, and a temporary
      one lasts exactly one hour. */
  lemma WrittenEntriesStamped(fails: seq<Fail>, now: int, loaded: Option<Entry>)
    requires RuleOutcome(fails, now, loaded) != loaded
    ensures var e := RuleOutcome(fails, now, loaded).value;
      e.since == now && (e.kind == Temporary ==> e.until == Some(e.since + BlockSecs))
      && (e.kind == Permanent ==> e.until == None)
  {
  }

  /** Rule 3 never overwrites a permanent entry: if only rule 3 fires on an
      IP loaded as permanent, the loaded entry stays. */
  lemma ScatterKeepsPermanent(fails: seq<Fail>, now: int, loaded: Entry)
    requires loaded.kind == Permanent
    requires !Burst(Times(fails), 300, 10) && !Burst(Times(fails), 86400, 30)
    ensures RuleOutcome(fails, now, Some(loaded)) == Some(loaded)
  {
  }

  /** Rule 1 is written unconditionally, so a loaded permanent entry is
      downgraded to a one-hour block when rule 1 fires and rule 2 does not. */
  lemma ShortRuleDowngrades(fails: seq<Fail>, now: int, loaded: Entry)
    requires loaded.kind == Permanent
    requires Burst(Times(fails), 300, 10) && !Burst(Times(fails), 86400, 30)
    ensures RuleOutcome(fails, now, Some(loaded)).value.kind == Temporary
  {
  }

  /** Running the rules twice at the same `now` gives the same blacklist as
      running them once. */
  lemma RulesIdempotent(fails: seq<Fail>, now: int, loaded: Option<Entry>)
    ensures RuleOutcome(fails, now, RuleOutcome(fails, now, loaded)) == RuleOutcome(fails, now, loaded)
  {
  }

  /** Two logs with the same failures from `ip` give `ip` the same outcome. */
  lemma SameFailsSameOutcome(rows1: seq<CliRow>, rows2: seq<CliRow>, ip: string, now: int, loaded: Option<Entry>)
    requires Seqs.Filter(rows1, OwnFail(ip)) == Seqs.Filter(rows2, OwnFail(ip))
    ensures RuleOutcome(FailEvents(rows1, ip), now, loaded) == RuleOutcome(FailEvents(rows2, ip), now, loaded)
  {
    FailEventsOwnFailsOnly(rows1, ip);
    FailEventsOwnFailsOnly(rows2, ip);
  }

  // ---------------------------------------------------------------------
  // stats
  // ---------------------------------------------------------------------

  datatype CliStats = CliStats(
    totalEvents: nat,
    byResult: Tally.Counter<string>,
    topIpsByFails: Tally.Counter<string>,
    ipsByDistinctUsersAttacked: Tally.Counter<string>)

  function ResultOf(r: CliRow): string { r.result }
  function IpOf(r: CliRow): string { r.ip }

  /** The users attacked by failures from `ip`. */
  function AttackedUsers(failed: seq<CliRow>, ip: string): set<string> {
    set k | 0 <= k < |failed| && failed[k].ip == ip :: failed[k].username
  }

  /** `(ip, len(users))` for every IP with a failure, in first-failure order. */
  function DistinctUsersByIp(failed: seq<CliRow>): (c: Tally.Counter<string>)
    ensures Tally.Keys(c) == Tally.Dedup(Seqs.Map(failed, IpOf))
    ensures forall k :: 0 <= k < |c| ==> c[k].1 == |AttackedUsers(failed, c[k].0)|
  {
    var ips := Tally.Dedup(Seqs.Map(failed, IpOf));
    var c := Seqs.Map(ips, (ip: string) => (ip, |AttackedUsers(failed, ip)|));
    KeysOfPairs(ips, c);
    c
  }

  lemma KeysOfPairs(ips: seq<string>, c: Tally.Counter<string>)
    requires |c| == |ips| && forall k :: 0 <= k < |ips| ==> c[k].0 == ips[k]
    ensures Tally.Keys(c) == ips
  {
  }

  /** `stats(rows)`: the number of events, the count of each result text,
      the ten IPs with most failures and the ten IPs that attacked most
      distinct users, each list largest first. */
  function Stats(rows: seq<CliRow>): (s: CliStats)
    ensures s.totalEvents == |rows|
    ensures Tally.Total(s.byResult) == |rows|
    ensures Tally.Keys(s.byResult) == Tally.Dedup(Seqs.Map(rows, ResultOf))
    ensures forall t :: Tally.Get(s.byResult, t) == Tally.Count(Seqs.Map(rows, ResultOf), t)
    ensures var c := Tally.Tally(Seqs.Map(Seqs.Filter(rows, IsFailRow), IpOf));
      && |s.topIpsByFails| == Min(10, |c|) && Tally.NonIncreasing(s.topIpsByFails)
      && multiset(s.topIpsByFails) <= multiset(c)
      && forall q, j :: q in c && q !in s.topIpsByFails && 0 <= j < |s.topIpsByFails| ==> q.1 <= s.topIpsByFails[j].1
    ensures var c := DistinctUsersByIp(Seqs.Filter(rows, IsFailRow));
      && |s.ipsByDistinctUsersAttacked| == Min(10, |c|) && Tally.NonIncreasing(s.ipsByDistinctUsersAttacked)
      && multiset(s.ipsByDistinctUsersAttacked) <= multiset(c)
      && forall q, j :: q in c && q !in s.ipsByDistinctUsersAttacked && 0 <= j < |s.ipsByDistinctUsersAttacked| ==>
           q.1 <= s.ipsByDistinctUsersAttacked[j].1
  {
    var failed := Seqs.Filter(rows, IsFailRow);
    Tally.TallyKeys(Seqs.Map(rows, ResultOf));
    forall t
      ensures Tally.Get(Tally.Tally(Seqs.Map(rows, ResultOf)), t) == Tally.Count(Seqs.Map(rows, ResultOf), t)
    {
      Tally.TallyGet(Seqs.Map(rows, ResultOf), t);
    }
    CliStats(
      |rows|,
      Tally.Tally(Seqs.Map(rows, ResultOf)),
      Tally.TopK(Tally.Tally(Seqs.Map(failed, IpOf)), 10),
      Tally.TopK(DistinctUsersByIp(failed), 10))
  }

  /** Every pair of the failure ranking is an IP with its true number of
      failures, each IP at most once. */
  lemma StatsTopIps(rows: seq<CliRow>, i: nat)
    requires i < |Stats(rows).topIpsByFails|
    ensures var top := Stats(rows).topIpsByFails;
      top[i].1 == |Seqs.Filter(rows, OwnFail(top[i].0))| > 0
    ensures Tally.DistinctKeys(Stats(rows).topIpsByFails)
  {
    var xs := Seqs.Map(Seqs.Filter(rows, IsFailRow), IpOf);
    var top := Stats(rows).topIpsByFails;
    Tally.RankedCounts(xs, top, i);
    Tally.CountMapFilter(rows, IsFailRow, IpOf, top[i].0, OwnFail(top[i].0));
  }

  /** Every pair of the distinct-users ranking is an IP with the number of
      distinct users its failures attacked. */
  lemma StatsTopUsers(rows: seq<CliRow>, i: nat)
    requires i < |Stats(rows).ipsByDistinctUsersAttacked|
    ensures var top := Stats(rows).ipsByDistinctUsersAttacked;
      top[i].1 == |AttackedUsers(Seqs.Filter(rows, IsFailRow), top[i].0)|
  {
    var c := DistinctUsersByIp(Seqs.Filter(rows, IsFailRow));
    var top := Stats(rows).ipsByDistinctUsersAttacked;
    var j := Tally.FromSub(top, c, i);
  }

  /** The by-result counts are the occurrence counts of each result text. */
  lemma StatsByResult(rows: seq<CliRow>, result: string)
    ensures Tally.Get(Stats(rows).byResult, result) == Tally.Count(Seqs.Map(rows, ResultOf), result)
  {
    Tally.TallyGet(Seqs.Map(rows, ResultOf), result);
  }
}

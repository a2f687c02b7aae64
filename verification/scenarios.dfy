/** The attack patterns the two log generators inject (`Projecto/generate_logs.py`
    and `Projecto_2/Projecto_final/generate_logs.py`), stated for any start
    time and any user names, and what both analysers decide on them. */
module Scenarios {
  import opened Base
  import opened Windows
  import CliRules
  import opened FinalStorage
  import FinalAnalyzer

  /** One failure every `gap` seconds from `start`, the i-th against
      `users[i]`. */
  function Spaced(start: int, gap: nat, users: seq<string>): (evs: seq<Fail>)
    ensures |evs| == |users|
    ensures forall i :: 0 <= i < |users| ==> evs[i] == Fail(start + i * gap, users[i])
  {
    if |users| == 0 then []
    else Spaced(start, gap, users[..|users| - 1]) + [Fail(start + (|users| - 1) * gap, users[|users| - 1])]
  }

  lemma SpacedInOrder(start: int, gap: nat, users: seq<string>)
    ensures InTimeOrder(Spaced(start, gap, users))
  {
    var evs := Spaced(start, gap, users);
    forall i, j | 0 <= i <= j < |evs|
      ensures evs[i].ts <= evs[j].ts
    {
      assert evs[j].ts - evs[i].ts == (j - i) * gap;
      assert (j - i) * gap >= 0;
    }
  }

  /** Evenly spaced failures reach `n` in a window of `w` seconds as soon
      as `n` consecutive ones fit in it. */
  lemma SpacedBurst(start: int, gap: nat, users: seq<string>, w: int, n: nat)
    requires 1 <= n <= |users| && (n - 1) * gap <= w
    ensures Burst(Times(Spaced(start, gap, users)), w, n)
  {
    var ts := Times(Spaced(start, gap, users));
    assert ts[n - 1] - ts[0] == (n - 1) * gap;
    assert BurstAt(ts, 0, n - 1, w, n);
  }

  /** Failures spaced further apart than the window never put two of them
      in it. */
  lemma SparseNoBurst(start: int, gap: nat, users: seq<string>, w: int, n: int)
    requires gap > w && n >= 2
    ensures !Burst(Times(Spaced(start, gap, users)), w, n)
  {
    var ts := Times(Spaced(start, gap, users));
    forall a, b | 0 <= a <= b < |ts| && b - a + 1 >= n
      ensures !BurstAt(ts, a, b, w, n)
    {
      Gaps(start, gap, users, a, b);
    }
  }

  /** Failures `a` and `b` are at least `gap` seconds apart when distinct. */
  lemma Gaps(start: int, gap: nat, users: seq<string>, a: nat, b: nat)
    requires a < b < |users|
    ensures Times(Spaced(start, gap, users))[b] - Times(Spaced(start, gap, users))[a] >= gap
  {
    var d: nat := b - a;
    assert (a + d) * gap == a * gap + d * gap;
    assert d * gap >= gap by {
      assert d * gap == gap + (d - 1) * gap;
    }
  }

  /** The first `hi` failures attack `hi` users when the names are distinct. */
  lemma {:induction false} DistinctUsers(start: int, gap: nat, users: seq<string>, hi: nat)
    requires hi <= |users|
    requires forall i, j :: 0 <= i < j < |users| ==> users[i] != users[j]
    ensures |Users(Spaced(start, gap, users), 0, hi)| == hi
  {
    var evs := Spaced(start, gap, users);
    if hi > 0 {
      DistinctUsers(start, gap, users, hi - 1);
      assert Users(evs, 0, hi) == Users(evs, 0, hi - 1) + {users[hi - 1]};
      assert users[hi - 1] !in Users(evs, 0, hi - 1);
    } else {
      assert Users(evs, 0, 0) == {};
    }
  }

  /** Evenly spaced failures against distinct users name `n` of them in a
      window of `w` seconds as soon as `n` consecutive ones fit in it. */
  lemma SpacedScatter(start: int, gap: nat, users: seq<string>, w: int, n: nat)
    requires 1 <= n <= |users| && (n - 1) * gap <= w
    requires forall i, j :: 0 <= i < j < |users| ==> users[i] != users[j]
    ensures Scatter(Spaced(start, gap, users), w, n)
  {
    var evs := Spaced(start, gap, users);
    DistinctUsers(start, gap, users, n);
    assert evs[n - 1].ts - evs[0].ts == (n - 1) * gap;
    assert ScatterAt(evs, 0, n - 1, w, n);
  }

  /** The command-line generator's burst: 12 failures 15 seconds apart. Rule
      1 fires and rule 2 cannot, so whatever was loaded and whoever the
      users are, the IP ends with a fresh temporary block of one hour. */
  lemma CliBurstScenario(start: int, now: int, users: seq<string>, loaded: Option<CliRules.Entry>)
    requires |users| == 12
    ensures var e := CliRules.RuleOutcome(Spaced(start, 15, users), now, loaded);
      e.Some? && e.value.kind == CliRules.Temporary && e.value.since == now
      && e.value.until == Some(now + CliRules.BlockSecs)
  {
    SpacedBurst(start, 15, users, 300, 10);
  }

  /** The command-line generator's scatter: 6 distinct users 60 seconds
      apart. Only rule 3 fires, so the IP is blocked for an hour for
      scattering, unless its loaded entry is permanent, which is kept. */
  lemma CliScatterScenario(start: int, now: int, users: seq<string>, loaded: Option<CliRules.Entry>)
    requires |users| == 6
    requires forall i, j :: 0 <= i < j < |users| ==> users[i] != users[j]
    ensures var e := CliRules.RuleOutcome(Spaced(start, 60, users), now, loaded);
      if loaded.Some? && loaded.value.kind == CliRules.Permanent then e == loaded
      else e == Some(CliRules.TempEntry(CliRules.ScatterReason, now))
  {
    SpacedScatter(start, 60, users, 600, 5);
  }

  /** The final project's burst: 12 failures 20 seconds apart earn a
      temporary block until an hour after the last of them. */
  lemma FinalBurstScenario(start: int, users: seq<string>)
    requires |users| == 12
    ensures FinalAnalyzer.Verdict(Spaced(start, 20, users)) == Some(BlackRecord(Some(Temp), At(start + 11 * 20 + 3600)))
  {
    SpacedBurst(start, 20, users, 300, 10);
  }

  /** The final project's long-term attacker: 32 failures 10 minutes apart
      fall within a day and earn a permanent block. */
  lemma FinalLongScenario(start: int, users: seq<string>)
    requires |users| == 32
    ensures FinalAnalyzer.Verdict(Spaced(start, 600, users)) == Some(FinalAnalyzer.PermRecord)
  {
    SpacedBurst(start, 600, users, 86400, 30);
  }

  /** The same 32 failures never trip the 5-minute rule on their own. */
  lemma FinalLongNotShort(start: int, users: seq<string>)
    requires |users| == 32
    ensures !Burst(Times(Spaced(start, 600, users)), 300, 10)
  {
    SparseNoBurst(start, 600, users, 300, 10);
  }
}

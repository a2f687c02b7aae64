/** The classroom analyser's statistics (`exemplos_CIT/analytics.py`) and
    the pipeline of its `main.py`: failures counted per IP, the most
    targeted users, and the IPs whose failure count reaches a limit. */
module CitAnalytics {
  import opened Base
  import Seqs
  import Tally
  import opened CitParser

  predicate Failed(r: CitRecord) {
    !r.ok
  }

  function IpOf(r: CitRecord): string {
    r.ip
  }

  function UserOf(r: CitRecord): string {
    r.user
  }

  /** The failed records whose `key` is `v`. */
  function FailedWith(key: CitRecord -> string, v: string): CitRecord -> bool {
    (r: CitRecord) => !r.ok && key(r) == v
  }

  /** Counting the keys of the failures one by one gives, for each value,
      the number of failed records carrying it. */
  lemma FailCount(regs: seq<CitRecord>, key: CitRecord -> string, v: string)
    ensures Tally.Count(Seqs.Map(Seqs.Filter(regs, Failed), key), v) == |Seqs.Filter(regs, FailedWith(key, v))|
  {
    Tally.CountMapFilter(regs, Failed, key, v, FailedWith(key, v));
  }

  /** `contar_falhas_por_ip(registos)`: each IP with its number of failed
      records, in the order the IPs first failed. */
  function ContarFalhasPorIp(regs: seq<CitRecord>): (c: Tally.Counter<string>)
    ensures Tally.Total(c) == |Seqs.Filter(regs, Failed)|
    ensures Tally.DistinctKeys(c) && Tally.Positive(c)
    ensures forall ip :: Tally.Get(c, ip) == |Seqs.Filter(regs, FailedWith(IpOf, ip))|
    ensures forall ip :: ip in Tally.Keys(c) <==> Tally.Get(c, ip) > 0
    ensures Tally.Keys(c) == Tally.Dedup(Seqs.Map(Seqs.Filter(regs, Failed), IpOf))
  {
    CountByKey(regs, IpOf)
  }

  /** The failures of the records counted by `key`. */
  function CountByKey(regs: seq<CitRecord>, key: CitRecord -> string): (c: Tally.Counter<string>)
    ensures Tally.Total(c) == |Seqs.Filter(regs, Failed)|
    ensures Tally.DistinctKeys(c) && Tally.Positive(c)
    ensures forall v :: Tally.Get(c, v) == |Seqs.Filter(regs, FailedWith(key, v))|
    ensures forall v :: v in Tally.Keys(c) <==> Tally.Get(c, v) > 0
    ensures Tally.Keys(c) == Tally.Dedup(Seqs.Map(Seqs.Filter(regs, Failed), key))
  {
    var xs := Seqs.Map(Seqs.Filter(regs, Failed), key);
    Tally.TallyKeys(xs);
    Tally.TallyDistinct(xs);
    Tally.TallyPositive(xs);
    forall v
      ensures Tally.Get(Tally.Tally(xs), v) == |Seqs.Filter(regs, FailedWith(key, v))|
      ensures v in Tally.Keys(Tally.Tally(xs)) <==> Tally.Get(Tally.Tally(xs), v) > 0
    {
      Tally.TallyGet(xs, v);
      Tally.TallyLookup(xs, v);
      FailCount(regs, key, v);
    }
    Tally.Tally(xs)
  }

  /** `top_utilizadores_visados(registos, k)`: `Counter.most_common(k)` over
      the users of the failed records; a limit of zero or less gives
      nothing. The pairs are users with their failure counts, largest
      first, and no user left out failed more often than one kept. */
  function TopUtilizadoresVisados(regs: seq<CitRecord>, k: int): (top: Tally.Counter<string>)
    ensures var c := CountByKey(regs, UserOf);
      |top| == Min(if k < 0 then 0 else k, |c|)
    ensures Tally.NonIncreasing(top)
    ensures forall i :: 0 <= i < |top| ==> top[i].1 == |Seqs.Filter(regs, FailedWith(UserOf, top[i].0))| > 0
    ensures forall i, j :: 0 <= i < j < |top| ==> top[i].0 != top[j].0
    ensures forall u, i :: 0 <= i < |top| && u !in Tally.Keys(top) ==>
      |Seqs.Filter(regs, FailedWith(UserOf, u))| <= top[i].1
  {
    var c := CountByKey(regs, UserOf);
    var top := Tally.TopK(c, if k < 0 then 0 else k);
    TopFacts(c, top, regs);
    top
  }

  /** What `TopUtilizadoresVisados` inherits from the counter it ranks. */
  lemma TopFacts(c: Tally.Counter<string>, top: Tally.Counter<string>, regs: seq<CitRecord>)
    requires c == CountByKey(regs, UserOf)
    requires multiset(top) <= multiset(c)
    requires forall q, j :: q in c && q !in top && 0 <= j < |top| ==> q.1 <= top[j].1
    ensures forall i :: 0 <= i < |top| ==> top[i].1 == |Seqs.Filter(regs, FailedWith(UserOf, top[i].0))| > 0
    ensures forall i, j :: 0 <= i < j < |top| ==> top[i].0 != top[j].0
    ensures forall u, i :: 0 <= i < |top| && u !in Tally.Keys(top) ==>
      |Seqs.Filter(regs, FailedWith(UserOf, u))| <= top[i].1
  {
    forall i | 0 <= i < |top|
      ensures top[i].1 == Tally.Get(c, top[i].0) > 0
    {
      assert top[i] in multiset(c);
      var j :| 0 <= j < |c| && c[j] == top[i];
      Tally.GetAt(c, j);
    }
    Tally.DistinctSub(c, top);
    forall u, i | 0 <= i < |top| && u !in Tally.Keys(top)
      ensures Tally.Get(c, u) <= top[i].1
    {
      TopLeftOut(c, top, u, i);
    }
  }

  /** A key left out of the ranking counts no more than any key kept. */
  lemma TopLeftOut(c: Tally.Counter<string>, top: Tally.Counter<string>, u: string, i: nat)
    requires Tally.DistinctKeys(c) && i < |top| && u !in Tally.Keys(top)
    requires forall q, j :: q in c && q !in top && 0 <= j < |top| ==> q.1 <= top[j].1
    ensures Tally.Get(c, u) <= top[i].1
  {
    if a :| 0 <= a < |c| && c[a].0 == u {
      Tally.GetAt(c, a);
      assert c[a] !in top by {
        forall b | 0 <= b < |top|
          ensures top[b] != c[a]
        {
          assert Tally.Keys(top)[b] == top[b].0;
        }
      }
    } else {
      Tally.GetAbsent(c, u);
    }
  }

  /** The counter entries whose count reaches `limite`. */
  function Reaches(limite: int): ((string, nat)) -> bool {
    (p: (string, nat)) => p.1 >= limite
  }

  function KeyOf(p: (string, nat)): string {
    p.0
  }

  /** `ips_suspeitos(contagens, limite)`: the keys whose count reaches the
      limit, in the counter's order. */
  function IpsSuspeitos(c: Tally.Counter<string>, limite: int): (ips: seq<string>)
    ensures |ips| <= |c|
    ensures forall ip :: ip in ips <==> exists i :: 0 <= i < |c| && c[i].0 == ip && c[i].1 >= limite
    ensures Tally.DistinctKeys(c) ==> forall i, j :: 0 <= i < j < |ips| ==> ips[i] != ips[j]
  {
    if |c| == 0 then []
    else
      var rest := IpsSuspeitos(c[1..], limite);
      assert forall i :: 0 <= i < |c| - 1 ==> c[1..][i] == c[i + 1];
      if c[0].1 >= limite then
        assert Tally.DistinctKeys(c) ==> c[0].0 !in rest;
        [c[0].0] + rest
      else rest
  }

  /** The suspicious IPs come in the counter's order: they are the keys of
      the entries reaching the limit, in place. */
  lemma {:induction false} SuspectsInOrder(c: Tally.Counter<string>, limite: int)
    ensures IpsSuspeitos(c, limite) == Seqs.Map(Seqs.Filter(c, Reaches(limite)), KeyOf)
  {
    if |c| > 0 {
      SuspectsInOrder(c[1..], limite);
      var head := if c[0].1 >= limite then [c[0]] else [];
      assert Seqs.Filter(c, Reaches(limite)) == head + Seqs.Filter(c[1..], Reaches(limite));
      Seqs.MapAppend(head, Seqs.Filter(c[1..], Reaches(limite)), KeyOf);
    }
  }

  /** Read together with `ContarFalhasPorIp`, an IP is suspicious exactly
      when it failed at least `limite` times, and at least once. */
  lemma SuspectsFailedOften(regs: seq<CitRecord>, limite: int, ip: string)
    ensures var n := |Seqs.Filter(regs, FailedWith(IpOf, ip))|;
      ip in IpsSuspeitos(ContarFalhasPorIp(regs), limite) <==> n >= limite && n > 0
  {
    var c := ContarFalhasPorIp(regs);
    if exists i :: 0 <= i < |c| && c[i].0 == ip {
      var i :| 0 <= i < |c| && c[i].0 == ip;
      Tally.GetAt(c, i);
    } else {
      Tally.GetAbsent(c, ip);
    }
  }

  /** The format name `detetar_formato` returns and `parse_linhas` reads. */
  function FormatName(f: CitFormat): string {
    match f
    case CsvFormat => "csv"
    case PipeFormat => "pipe"
    case JsonlFormat => "jsonl"
  }

  /** The report of `main` without the percentages. */
  datatype Report = Report(contagensIp: Tally.Counter<string>, topUsers: Tally.Counter<string>, suspeitos: seq<string>)

  /** `main()` on the lines of a non-empty file: the format is guessed, the
      lines parsed, and the statistics computed with the defaults `k = 3`
      and `limite = 3`. The CSV and JSON-lines readers' output comes in as
      for `ParseLinhas`. */
  method Analisar(lines: seq<string>, csvRows: seq<map<string, string>>, jsonObjects: seq<map<string, string>>)
      returns (f: CitFormat, rep: Report)
    ensures var regs := ParseLinhas(lines, FormatName(f), csvRows, jsonObjects);
      && rep.contagensIp == ContarFalhasPorIp(regs)
      && rep.topUsers == TopUtilizadoresVisados(regs, 3)
    ensures Detected(lines, f)
    ensures |rep.topUsers| <= 3
    ensures forall ip :: ip in rep.suspeitos <==> Tally.Get(rep.contagensIp, ip) >= 3
  {
    f := DetectFormat(lines);
    var regs := ParseLinhas(lines, FormatName(f), csvRows, jsonObjects);
    var counts := ContarFalhasPorIp(regs);
    rep := Report(counts, TopUtilizadoresVisados(regs, 3), IpsSuspeitos(counts, 3));
    forall ip
      ensures ip in rep.suspeitos <==> Tally.Get(counts, ip) >= 3
    {
      SuspectsFailedOften(regs, 3, ip);
    }
  }
}

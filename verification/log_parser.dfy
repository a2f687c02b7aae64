/** The log analyser's record parser (`analisador_logs/parser.py`):
    `parse_records` trims the IP and user of each normalised record and
    canonicalises its status to "success" or "fail" where it recognises
    the word. */
module LogParser {
  import opened Base
  import Text
  import Seqs
  import opened LogIo

  /** Status words read as a success, after lower-casing. */
  const SuccessWords: set<string> := {"ok", "success", "200", "true", "s", "sucesso"}

  /** Status words read as a failure, after lower-casing. */
  const FailWords: set<string> := {"fail", "failed", "error", "false", "401", "403", "500", "f", "falha"}

  /** A parsed record; the status is absent when the input had none. */
  datatype Parsed = Parsed(timestamp: Value, ip: Value, user: Value, status: Option<string>)

  /** `r.get(k)`. */
  function Get(r: Record, k: string): Value {
    if k in r then r[k] else Null
  }

  /** `str(v)` for a present value. */
  function Show(v: Value): string
    requires !v.Null?
  {
    match v
    case Str(s) => s
    case Int(i) => Text.IntToString(i)
    case Bool(b) => if b then "True" else "False"
  }

  /** `(v or '').strip()` for a string, the value itself for anything else. */
  function Trim(v: Value): Value {
    if v.Str? then Str(Text.Strip(v.s)) else v
  }

  /** A status the parser can output: "success", "fail", or a lower-case
      word it does not recognise. */
  ghost predicate CanonicalStatus(v: string) {
    && (forall i :: 0 <= i < |v| ==> !Text.IsUpperAscii(v[i]))
    && (v == "success" || v == "fail" || (v !in SuccessWords && v !in FailWords))
  }

  /** The status mapping of `parse_records` on a lower-cased word. */
  function Canonical(val: string): (c: string)
    ensures val in SuccessWords ==> c == "success"
    ensures val in FailWords ==> c == "fail"
    ensures val !in SuccessWords && val !in FailWords ==> c == val
  {
    if val in SuccessWords then "success"
    else if val in FailWords then "fail"
    else val
  }

  /** One record of `parse_records`: the timestamp is kept, the IP and user
      are stripped when they are strings and kept otherwise, and the status
      is lower-cased and canonicalised (an absent status stays absent). */
  function ParseRecord(r: Record): (p: Parsed)
    ensures p.timestamp == Get(r, "timestamp")
    ensures p.ip == Trim(Get(r, "ip")) && p.user == Trim(Get(r, "user"))
    ensures p.status.None? <==> Get(r, "status").Null?
    ensures p.status.Some? ==> CanonicalStatus(p.status.value)
    ensures Get(r, "status").Str? && Text.Lower(Get(r, "status").s) in SuccessWords ==> p.status == Some("success")
    ensures Get(r, "status").Str? && Text.Lower(Get(r, "status").s) in FailWords ==> p.status == Some("fail")
    ensures var st := Get(r, "status");
      !st.Null? ==>
        && (p.status == Some("success") <==> Text.Lower(Show(st)) in SuccessWords)
        && (p.status == Some("fail") <==> Text.Lower(Show(st)) in FailWords)
        && (Text.Lower(Show(st)) !in SuccessWords && Text.Lower(Show(st)) !in FailWords ==>
              p.status == Some(Text.Lower(Show(st))))
  {
    Parsed(Get(r, "timestamp"), Trim(Get(r, "ip")), Trim(Get(r, "user")), StatusOf(Get(r, "status")))
  }

  /** `str(status).lower()` canonicalised, or nothing for a missing status. */
  function StatusOf(st: Value): (o: Option<string>)
    ensures o.None? <==> st.Null?
    ensures o.Some? ==> CanonicalStatus(o.value)
    ensures !st.Null? ==>
      && (o == Some("success") <==> Text.Lower(Show(st)) in SuccessWords)
      && (o == Some("fail") <==> Text.Lower(Show(st)) in FailWords)
      && (Text.Lower(Show(st)) !in SuccessWords && Text.Lower(Show(st)) !in FailWords ==>
            o == Some(Text.Lower(Show(st))))
  {
    if st.Null? then None
    else
      var low := Text.Lower(Show(st));
      CanonicalIsCanonical(low);
      Some(Canonical(low))
  }

  lemma CanonicalIsCanonical(low: string)
    requires forall i :: 0 <= i < |low| ==> !Text.IsUpperAscii(low[i])
    ensures CanonicalStatus(Canonical(low))
  {
    if low in SuccessWords {
      Text.LowerOfLower("success");
    } else if low in FailWords {
      Text.LowerOfLower("fail");
    }
  }

  /** `parse_records`: exactly one parsed record per input record, in
      order. */
  function ParseRecords(rs: seq<Record>): (ps: seq<Parsed>)
    ensures |ps| == |rs|
    ensures forall i :: 0 <= i < |rs| ==> ps[i] == ParseRecord(rs[i])
  {
    Seqs.Map(rs, ParseRecord)
  }

  /** A parsed record written back as a record with the four fields. */
  function AsRecord(p: Parsed): Record {
    map["timestamp" := p.timestamp, "ip" := p.ip, "user" := p.user,
        "status" := if p.status.Some? then Str(p.status.value) else Null]
  }

  /** A canonical status maps to itself. */
  lemma {:induction false} CanonicalFixed(v: string)
    requires CanonicalStatus(v)
    ensures Canonical(Text.Lower(v)) == v
  {
    Text.LowerOfLower(v);
  }

  /** The four fields of a record written back. */
  lemma AsRecordFields(p: Parsed)
    ensures Get(AsRecord(p), "timestamp") == p.timestamp
    ensures Get(AsRecord(p), "ip") == p.ip && Get(AsRecord(p), "user") == p.user
    ensures Get(AsRecord(p), "status") == if p.status.Some? then Str(p.status.value) else Null
  {
  }

  /** Parsing is idempotent: parsing a parsed record again changes nothing. */
  lemma {:induction false} ParseIdempotent(r: Record)
    ensures ParseRecord(AsRecord(ParseRecord(r))) == ParseRecord(r)
  {
    var p := ParseRecord(r);
    AsRecordFields(p);
    if p.ip.Str? {
      Text.StripIdempotent(Get(r, "ip").s);
    }
    if p.user.Str? {
      Text.StripIdempotent(Get(r, "user").s);
    }
    if p.status.Some? {
      CanonicalFixed(p.status.value);
    }
  }

  /** The HTTP status codes among the status words. */
  lemma HttpWord(w: string)
    requires w in {"200", "401", "403", "500"}
    ensures Canonical(w) == if w == "200" then "success" else "fail"
  {
  }

  /** The lower-cased spelling of an HTTP status code is its three digits. */
  lemma HttpSpelling(n: int) returns (w: string)
    requires n in {200, 401, 403, 500}
    ensures w == Text.Lower(Show(Int(n)))
    ensures w in {"200", "401", "403", "500"} && (w == "200" <==> n == 200)
  {
    w := Text.IntToString(n);
    Text.ThreeDigits(n);
    Text.LowerOfLower(w);
    if n == 200 {
      assert w == "200";
    } else if n == 401 {
      assert w == "401";
    } else if n == 403 {
      assert w == "403";
    } else {
      assert w == "500";
    }
  }

  /** An HTTP status code given as a number is read through its decimal
      spelling: 200 is a success; 401, 403 and 500 are failures. */
  lemma HttpStatus(r: Record)
    requires Get(r, "status") in {Int(200), Int(401), Int(403), Int(500)}
    ensures ParseRecord(r).status == Some(if Get(r, "status") == Int(200) then "success" else "fail")
  {
    var st := Get(r, "status");
    var w := HttpSpelling(st.i);
    HttpWord(w);
    assert ParseRecord(r).status == StatusOf(st);
  }

  /** A JSON boolean status reads as a success when true and as a failure
      when false, through its Python spelling "True" / "False". */
  lemma BooleanStatus(r: Record)
    requires Get(r, "status").Bool?
    ensures ParseRecord(r).status == Some(if Get(r, "status").b then "success" else "fail")
  {
    assert Text.Lower("True") == "true";
    assert Text.Lower("False") == "false";
  }
}

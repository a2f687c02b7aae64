/** The classroom log parser (`exemplos_CIT/parser.py`): the format guess
    from the first lines, the field normalisation of one record, and the
    pipe-delimited branch of `parse_linhas`. */
module CitParser {
  import opened Base
  import Text
  import Seqs

  datatype CitFormat = CsvFormat | PipeFormat | JsonlFormat

  /** What one line says about the format: nothing for a blank line or a
      line no rule matches; otherwise the first rule that matches, tried in
      the order CSV header, pipe separator, JSON object. */
  function LineVerdict(line: string): Option<CitFormat> {
    var t := Text.Strip(line);
    if |t| == 0 then None
    else if Text.Contains(line, "timestamp") && ',' in line then Some(CsvFormat)
    else if Text.Contains(line, " | ") then Some(PipeFormat)
    else if Text.StartsWith(t, "{") && Text.EndsWith(t, "}") then Some(JsonlFormat)
    else None
  }

  /** Line `i`, one of the first five, is the first that says anything. */
  ghost predicate Decides(lines: seq<string>, i: int) {
    0 <= i < |lines| && i < 5 && LineVerdict(lines[i]).Some?
    && forall j :: 0 <= j < i ==> LineVerdict(lines[j]).None?
  }

  /** `f` is the verdict of the first of the first five lines that has
      one, or CSV when none has. */
  ghost predicate Detected(lines: seq<string>, f: CitFormat) {
    || (exists i :: Decides(lines, i) && f == LineVerdict(lines[i]).value)
    || ((forall i :: 0 <= i < |lines| && i < 5 ==> LineVerdict(lines[i]).None?) && f == CsvFormat)
  }

  /** `detetar_formato`: the lines after the fifth are never looked at. */
  method DetectFormat(lines: seq<string>) returns (f: CitFormat)
    ensures Detected(lines, f)
  {
    var n := if |lines| < 5 then |lines| else 5;
    var i := 0;
    while i < n
      invariant 0 <= i <= n
      invariant forall j :: 0 <= j < i ==> LineVerdict(lines[j]).None?
    {
      var v := LineVerdict(lines[i]);
      if v.Some? {
        assert Decides(lines, i);
        return v.value;
      }
      i := i + 1;
    }
    return CsvFormat;
  }

  /** A normalised record: timestamp, user, IP, and whether the attempt
      succeeded. */
  datatype CitRecord = CitRecord(timestamp: string, user: string, ip: string, ok: bool)

  /** Status words read as a success, after lower-casing and stripping. */
  const OkWords: set<string> := {"true", "ok", "1"}

  /** `r.get(k, "")` on a record whose values are strings. */
  function Field(r: map<string, string>, k: string): string {
    if k in r then r[k] else ""
  }

  /** The normalisation of one record from its four raw fields: timestamp
      and IP stripped, user stripped and lower-cased, and success read off
      the lower-cased, stripped status. */
  function Build(timestamp: string, user: string, ip: string, status: string): (rec: CitRecord)
    ensures rec.ok <==> Text.Strip(Text.Lower(status)) in OkWords
    ensures rec.timestamp == Text.Strip(timestamp) && rec.ip == Text.Strip(ip)
    ensures rec.user == Text.Lower(Text.Strip(user))
    ensures forall i :: 0 <= i < |rec.user| ==> !Text.IsUpperAscii(rec.user[i])
  {
    CitRecord(Text.Strip(timestamp), Text.Lower(Text.Strip(user)), Text.Strip(ip),
              Text.Strip(Text.Lower(status)) in OkWords)
  }

  /** `_normalizar(r)`: each field read with the empty string as default. */
  function Normalizar(r: map<string, string>): (rec: CitRecord)
    ensures rec.ok <==> Text.Strip(Text.Lower(Field(r, "sucesso"))) in OkWords
    ensures rec.timestamp == Text.Strip(Field(r, "timestamp")) && rec.ip == Text.Strip(Field(r, "ip"))
    ensures rec.user == Text.Lower(Text.Strip(Field(r, "utilizador")))
  {
    Build(Field(r, "timestamp"), Field(r, "utilizador"), Field(r, "ip"), Field(r, "sucesso"))
  }

  /** A missing field reads as the empty string, so a record without a
      status is a failure. */
  lemma MissingStatusFails(r: map<string, string>)
    requires "sucesso" !in r
    ensures !Normalizar(r).ok
  {
    assert Text.Lower("") == "";
    Text.StripUntouched("");
  }

  /** A pipe line yields a record exactly when it splits into four parts. */
  predicate IsPipeRecord(line: string) {
    Text.CountChar(line, '|') == 3
  }

  /** The record built from a line with four pipe-separated parts. */
  function PipeRecord(line: string): CitRecord
    requires IsPipeRecord(line)
  {
    var parts := Text.Split(line, '|');
    Build(Text.Strip(parts[0]), Text.Strip(parts[1]), Text.Strip(parts[2]), Text.Strip(parts[3]))
  }

  /** The pipe branch of `parse_linhas`: one record per line with exactly
      four parts, in order; every other line is skipped. */
  function ParsePipe(lines: seq<string>): (rs: seq<CitRecord>)
    ensures |rs| == |Seqs.Filter(lines, IsPipeRecord)| <= |lines|
    ensures forall k :: 0 <= k < |rs| ==>
      IsPipeRecord(Seqs.Filter(lines, IsPipeRecord)[k]) && rs[k] == PipeRecord(Seqs.Filter(lines, IsPipeRecord)[k])
  {
    Seqs.FilterMap(lines, IsPipeRecord, PipeRecord)
  }

  /** Lines are parsed one at a time: the records of two stretches of lines
      are the records of each, in order. */
  lemma ParsePipeAppend(a: seq<string>, b: seq<string>)
    ensures ParsePipe(a + b) == ParsePipe(a) + ParsePipe(b)
  {
    Seqs.FilterMapAppend(a, b, IsPipeRecord, PipeRecord);
  }

  /** `parse_linhas(linhas, formato)`. The CSV and JSON-lines branches hand
      the lines to the standard library's readers; their output (the rows
      `csv.DictReader` yields and the objects that decode) comes in as
      `csvRows` and `jsonObjects` and is normalised row by row. Any other
      format string yields nothing. */
  function ParseLinhas(lines: seq<string>, formato: string,
                       csvRows: seq<map<string, string>>, jsonObjects: seq<map<string, string>>): (rs: seq<CitRecord>)
    ensures formato !in {"csv", "pipe", "jsonl"} ==> rs == []
    ensures formato == "pipe" ==> rs == ParsePipe(lines)
    ensures formato == "csv" ==> |rs| == |csvRows| && forall k :: 0 <= k < |rs| ==> rs[k] == Normalizar(csvRows[k])
    ensures formato == "jsonl" ==> |rs| == |jsonObjects| && forall k :: 0 <= k < |rs| ==> rs[k] == Normalizar(jsonObjects[k])
  {
    if formato == "csv" then Seqs.Map(csvRows, Normalizar)
    else if formato == "pipe" then ParsePipe(lines)
    else if formato == "jsonl" then Seqs.Map(jsonObjects, Normalizar)
    else []
  }
}

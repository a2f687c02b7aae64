/** The log analyser's input side (`analisador_logs/io_utils.py`): the
    format chosen for a log file from its suffix and first lines, and
    `_normalize`, which re-keys one record through the alias table. */
module LogIo {
  import Text

  /** A field value of a log record: missing or null, a string, an integer,
      or a boolean (the values the CSV and JSON readers produce; floats are
      not modelled). */
  datatype Value = Null | Str(s: string) | Int(i: int) | Bool(b: bool)

  /** A record after normalisation: field name to value. */
  type Record = map<string, Value>

  /** The four fields every normalised record carries. */
  const Fields: set<string> := {"timestamp", "ip", "user", "status"}

  /** The alias table of `_normalize`. */
  const Aliases: map<string, string> := map[
    "ts" := "timestamp", "time" := "timestamp", "data" := "timestamp",
    "ip_addr" := "ip",
    "username" := "user", "utilizador" := "user",
    "status_code" := "status", "result" := "status", "ok" := "status"]

  /** A raw key stripped and lower-cased, then renamed when it is an alias;
      any other key is kept in its cleaned form. */
  function CanonicalKey(k: string): string {
    var clean := Text.Lower(Text.Strip(k));
    if clean in Aliases then Aliases[clean] else clean
  }

  /** Surrounding white space and upper-case letters in a raw key make no
      difference once it has been cleaned: cleaning is idempotent. */
  lemma CleanIsFixed(k: string)
    ensures var clean := Text.Lower(Text.Strip(k)); Text.Lower(Text.Strip(clean)) == clean
  {
    var s := Text.Strip(k);
    Text.StripIdempotent(k);
    Text.LowerKeepsStrip(s);
    Text.LowerIdempotent(s);
  }

  /** A raw key and its stripped form have the same canonical key. */
  lemma CanonicalKeyTrims(k: string)
    ensures CanonicalKey(Text.Strip(k)) == CanonicalKey(k)
  {
    Text.StripIdempotent(k);
  }

  /** The keys of the items under `key`. */
  function Names(items: seq<(string, Value)>, key: string -> string): set<string> {
    if |items| == 0 then {} else Names(items[..|items| - 1], key) + {key(items[|items| - 1].0)}
  }

  lemma {:induction false} NamesSpec(items: seq<(string, Value)>, key: string -> string, k: string)
    ensures k in Names(items, key) <==> exists i :: 0 <= i < |items| && key(items[i].0) == k
  {
    if |items| > 0 {
      var n := |items| - 1;
      NamesSpec(items[..n], key, k);
      if k in Names(items[..n], key) {
        var i :| 0 <= i < n && key(items[..n][i].0) == k;
        assert items[i] == items[..n][i];
      }
      if exists i :: 0 <= i < |items| && key(items[i].0) == k {
        var i :| 0 <= i < |items| && key(items[i].0) == k;
        if i < n {
          assert items[..n][i] == items[i];
        }
      }
    }
  }

  /** The loop of `_normalize`: every item stored under its key, later items
      overwriting earlier ones. */
  function Rekey(items: seq<(string, Value)>, key: string -> string): (r: Record)
    ensures r.Keys == Names(items, key)
  {
    if |items| == 0 then map[]
    else
      var last := items[|items| - 1];
      Rekey(items[..|items| - 1], key)[key(last.0) := last.1]
  }

  /** `_normalize(rec)`: the items re-keyed under their canonical keys, then
      each of the four fields that is still missing added as null. */
  function Normalize(items: seq<(string, Value)>): (r: Record)
    ensures r.Keys == Names(items, CanonicalKey) + Fields
  {
    var m := Rekey(items, CanonicalKey);
    map k | k in m.Keys + Fields :: if k in m then m[k] else Null
  }

  /** `i` is the last item whose key is `k`. */
  ghost predicate LastFor(items: seq<(string, Value)>, key: string -> string, k: string, i: int) {
    0 <= i < |items| && key(items[i].0) == k
    && forall j :: i < j < |items| ==> key(items[j].0) != k
  }

  /** Values are only moved, never changed: each key holds the value of the
      last item with that key. */
  lemma {:induction false} RekeyLastWins(items: seq<(string, Value)>, key: string -> string, k: string, i: int)
    requires LastFor(items, key, k, i)
    ensures k in Rekey(items, key) && Rekey(items, key)[k] == items[i].1
  {
    var n := |items| - 1;
    if i < n {
      assert items[..n][i] == items[i];
      forall j | i < j < n
        ensures key(items[..n][j].0) != k
      {
        assert items[..n][j] == items[j];
      }
      RekeyLastWins(items[..n], key, k, i);
    }
  }

  /** The normalised record: a key some item canonicalises to holds the last
      such item's value; one of the four fields no item names is null; and
      no other key is present. */
  lemma NormalizeValues(items: seq<(string, Value)>, k: string)
    ensures forall i :: LastFor(items, CanonicalKey, k, i) ==> k in Normalize(items) && Normalize(items)[k] == items[i].1
    ensures k in Fields && (forall i :: 0 <= i < |items| ==> CanonicalKey(items[i].0) != k) ==>
      k in Normalize(items) && Normalize(items)[k] == Null
    ensures k !in Fields && (forall i :: 0 <= i < |items| ==> CanonicalKey(items[i].0) != k) ==>
      k !in Normalize(items)
  {
    NamesSpec(items, CanonicalKey, k);
    forall i | LastFor(items, CanonicalKey, k, i)
      ensures k in Normalize(items) && Normalize(items)[k] == items[i].1
    {
      RekeyLastWins(items, CanonicalKey, k, i);
    }
  }

  /** Some item has key `k` exactly when a last such item exists. */
  lemma LastExists(items: seq<(string, Value)>, key: string -> string, k: string, i0: int)
    requires 0 <= i0 < |items| && key(items[i0].0) == k
    ensures exists i :: LastFor(items, key, k, i)
    decreases |items| - i0
  {
    if !LastFor(items, key, k, i0) {
      var j :| i0 < j < |items| && key(items[j].0) == k;
      LastExists(items, key, k, j);
    }
  }

  /** The reader `read_lines_auto` picks. */
  datatype Format = Jsonl | Json | Pipe | Csv

  /** The first three lines of a file, each with its line terminator, joined
      (fewer when the file is shorter). */
  function Head(lines: seq<string>): (h: string)
    ensures forall c :: c in h <==> exists i :: 0 <= i < |lines| && i < 3 && c in lines[i]
  {
    if |lines| == 0 then ""
    else if |lines| == 1 then lines[0]
    else if |lines| == 2 then lines[0] + lines[1]
    else lines[0] + lines[1] + lines[2]
  }

  /** The format choice of `read_lines_auto`, as a function of the file
      name's suffix and its lines: the suffix decides first, compared
      case-insensitively; otherwise the first three lines decide. */
  function ChooseFormat(suffix: string, lines: seq<string>): (f: Format)
    ensures f == Jsonl <==> Text.Lower(suffix) == ".jsonl" || Text.Lower(suffix) == ".ndjson"
    ensures f == Json <==> Text.Lower(suffix) == ".json"
    ensures f == Pipe <==>
      && Text.Lower(suffix) !in {".jsonl", ".ndjson", ".json"}
      && (exists i :: 0 <= i < |lines| && i < 3 && '|' in lines[i])
      && (forall i :: 0 <= i < |lines| && i < 3 ==> ',' !in lines[i])
  {
    var s := Text.Lower(suffix);
    if s in {".jsonl", ".ndjson"} then Jsonl
    else if s == ".json" then Json
    else
      var head := Head(lines);
      if '|' in head && ',' !in head then Pipe else Csv
  }

  /** A comma anywhere in the first three lines means CSV, whatever else they
      hold, unless the suffix names a JSON format. */
  lemma CommaMeansCsv(suffix: string, lines: seq<string>, i: nat)
    requires i < |lines| && i < 3 && ',' in lines[i]
    requires Text.Lower(suffix) !in {".jsonl", ".ndjson", ".json"}
    ensures ChooseFormat(suffix, lines) == Csv
  {
  }
}

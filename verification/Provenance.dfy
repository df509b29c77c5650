/** The record of a build, printed as JSON with sorted keys, so that equal builds have equal records. */
module Provenance {
  import opened Order
  import opened Text
  import opened Seqs

  // ---------------------------------------------------------------- JSON with sorted keys

  predicate IsNumChar(c: char) { '0' <= c <= '9' || c == '.' || c == 'e' || c == 'E' || c == '+' || c == '-' }

  /** The decimal text of a number: it starts with a digit or a minus sign. */
  type NumText = t: string | t != "" && ('0' <= t[0] <= '9' || t[0] == '-') && forall c :: c in t ==> IsNumChar(c)
    witness "1"

  datatype Json = Text(s: string) | Number(n: NumText) | List(items: seq<Json>) | Record(fields: seq<(string, Json)>)

  function HexDigit(n: nat): char
    requires n < 16
  {
    "0123456789abcdef"[n]
  }

  /** A character inside a JSON string. */
  function Escaped(c: char): string {
    if c == '"' then "\\\""
    else if c == '\\' then "\\\\"
    else if c == '\U{0008}' then "\\b"
    else if c == '\t' then "\\t"
    else if c == '\n' then "\\n"
    else if c == '\U{000C}' then "\\f"
    else if c == '\r' then "\\r"
    else if c < ' ' then "\\u00" + [HexDigit(c as int / 16), HexDigit(c as int % 16)]
    else [c]
  }

  function EscapedAll(s: string): string { if s == [] then [] else Escaped(s[0]) + EscapedAll(s[1..]) }

  function JsonString(s: string): string { "\"" + EscapedAll(s) + "\"" }

  const SHORT_ESCAPES: map<char, char> :=
    map['"' := '"', '\\' := '\\', '\U{0008}' := 'b', '\t' := 't', '\n' := 'n', '\U{000C}' := 'f', '\r' := 'r']

  /** Five control characters, quote and backslash have a short escape, other control characters a long one. */
  lemma EscapedIs(c: char)
    ensures Escaped(c)
         == if c in SHORT_ESCAPES then ['\\', SHORT_ESCAPES[c]]
            else if c as int < 32 then
              "\\u00" + [if c as int < 16 then '0' else '1', "0123456789abcdef"[c as int % 16]]
            else [c]
  {
  }

  type Printed = (string, string)

  function PrintedKey(p: Printed): string { p.0 }

  function PrintedField(p: Printed): string { JsonString(p.0) + ":" + p.1 }

  function StableStringify(j: Json): string {
    match j
    case Text(s) => JsonString(s)
    case Number(n) => n
    case List(items) => "[" + Join(Texts(items, j), ",") + "]"
    case Record(fields) => "{" + Join(FieldLines(SortBy(FieldTexts(fields, j), PrintedKey)), ",") + "}"
  }

  function Texts(items: seq<Json>, ghost whole: Json): (texts: seq<string>)
    requires forall i :: 0 <= i < |items| ==> items[i] < whole
    ensures |texts| == |items| && forall i :: 0 <= i < |items| ==> texts[i] == StableStringify(items[i])
    decreases whole, |items|
  {
    if items == [] then [] else [StableStringify(items[0])] + Texts(items[1..], whole)
  }

  function FieldTexts(fields: seq<(string, Json)>, ghost whole: Json): (texts: seq<Printed>)
    requires forall i :: 0 <= i < |fields| ==> fields[i].1 < whole
    ensures |texts| == |fields|
    ensures forall i :: 0 <= i < |fields| ==> texts[i] == (fields[i].0, StableStringify(fields[i].1))
    decreases whole, |fields|
  {
    if fields == [] then [] else [(fields[0].0, StableStringify(fields[0].1))] + FieldTexts(fields[1..], whole)
  }

  function FieldLines(ps: seq<Printed>): seq<string> {
    seq(|ps|, i requires 0 <= i < |ps| => PrintedField(ps[i]))
  }

  /** The text of a record does not depend on the order of its fields. */
  lemma RecordTextIgnoresOrder(fs: seq<(string, Json)>, gs: seq<(string, Json)>)
    requires forall f :: f in fs <==> f in gs
    requires forall i, j :: 0 <= i < j < |fs| ==> fs[i].0 != fs[j].0
    requires forall i, j :: 0 <= i < j < |gs| ==> gs[i].0 != gs[j].0
    ensures StableStringify(Record(fs)) == StableStringify(Record(gs))
  {
    var xs, ys := FieldTexts(fs, Record(fs)), FieldTexts(gs, Record(gs));
    forall x | x in xs ensures x in ys {
      var i :| 0 <= i < |xs| && xs[i] == x;
      assert fs[i] in gs;
      var k :| 0 <= k < |gs| && gs[k] == fs[i];
      assert ys[k] == x;
    }
    forall y | y in ys ensures y in xs {
      var i :| 0 <= i < |ys| && ys[i] == y;
      assert gs[i] in fs;
      var k :| 0 <= k < |fs| && fs[k] == gs[i];
      assert xs[k] == y;
    }
    SortByCanonical(xs, ys, PrintedKey);
  }

  // ---------------------------------------------------------------- the record of a build

  datatype Entry = Entry(id: string, version: string, files: seq<string>)

  datatype Input = Input(
    specVersion: NumText, templateId: string, templateVersion: string, modules: seq<Entry>,
    initOrder: seq<string>, manifestKeys: seq<string>, brsGenVersion: string)

  function IdOf(e: Entry): string { e.id }

  function Strings(ss: seq<string>): Json { List(seq(|ss|, i requires 0 <= i < |ss| => Text(ss[i]))) }

  function EntryJson(e: Entry): Json {
    Record([("files", Strings(Sort(e.files))), ("id", Text(e.id)), ("version", Text(e.version))])
  }

  /** All lists are sorted but the initialisation order, which means something as it is. */
  function Normalized(input: Input): Json {
    var modules := SortBy(input.modules, IdOf);
    Record([
      ("brs_gen_version", Text(input.brsGenVersion)),
      ("init_order", Strings(input.initOrder)),
      ("manifest_keys", Strings(Sort(input.manifestKeys))),
      ("modules", List(seq(|modules|, i requires 0 <= i < |modules| => EntryJson(modules[i])))),
      ("spec_version", Number(input.specVersion)),
      ("template", Record([("id", Text(input.templateId)), ("version", Text(input.templateVersion))]))])
  }

  function BuildProvenance(input: Input): string { StableStringify(Normalized(input)) }

  /** The record is the same for every listing of the same modules and of the same manifest keys. */
  lemma ProvenanceCanonical(a: Input, b: Input)
    requires a.(modules := b.modules, manifestKeys := b.manifestKeys) == b
    requires DistinctKeys(a.modules, IdOf) && DistinctKeys(b.modules, IdOf)
    requires forall e :: e in a.modules <==> e in b.modules
    requires multiset(a.manifestKeys) == multiset(b.manifestKeys)
    ensures BuildProvenance(a) == BuildProvenance(b)
  {
    SortByCanonical(a.modules, b.modules, IdOf);
    SortCanonical(a.manifestKeys, b.manifestKeys);
  }
}

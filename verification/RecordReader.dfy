/**
 What the record of a build holds, as a reader of its text finds it: each value under its own field, and nothing that
 another build with other contents would record as well.
 */
module RecordReader {
  import opened Wrappers
  import opened Seqs
  import opened Order
  import opened JsonReader
  import P = Provenance

  // ---------------------------------------------------------------- fields

  /** The value under a name, in a record. */
  function FieldOf(j: Json, name: string): Option<Json> {
    if j.Record? then Lookup(j.fields, name) else None
  }

  function Lookup(fields: seq<(string, Json)>, name: string): Option<Json> {
    if fields == [] then None else if fields[0].0 == name then Some(fields[0].1) else Lookup(fields[1..], name)
  }

  /** A list of these texts, in this order. */
  ghost predicate Lists(j: Option<Json>, texts: seq<string>) {
    j.Some? && j.value.List? && |j.value.items| == |texts|
    && forall i :: 0 <= i < |texts| ==> j.value.items[i] == P.Text(texts[i])
  }

  /** A list of these texts, each as often, in ascending order. */
  ghost predicate ListsSorted(j: Option<Json>, texts: seq<string>) {
    exists sorted: seq<string> :: Sorted(sorted) && multiset(sorted) == multiset(texts) && Lists(j, sorted)
  }

  ghost predicate Describes(j: Json, e: P.Entry) {
    && FieldOf(j, "id") == Some(P.Text(e.id))
    && FieldOf(j, "version") == Some(P.Text(e.version))
    && ListsSorted(FieldOf(j, "files"), e.files)
  }

  /** One record for each module, in ascending order of ids. */
  ghost predicate ListsModules(j: Option<Json>, modules: seq<P.Entry>) {
    exists es: seq<P.Entry> ::
      && Sorted(MapSeq(P.IdOf, es)) && multiset(es) == multiset(modules)
      && j.Some? && j.value.List? && |j.value.items| == |es|
      && forall i :: 0 <= i < |es| ==> Describes(j.value.items[i], es[i])
  }

  /** Each value of the build stands under its own name. */
  ghost predicate Records(j: Json, input: P.Input) {
    && FieldOf(j, "brs_gen_version") == Some(P.Text(input.brsGenVersion))
    && Lists(FieldOf(j, "init_order"), input.initOrder)
    && ListsSorted(FieldOf(j, "manifest_keys"), input.manifestKeys)
    && ListsModules(FieldOf(j, "modules"), input.modules)
    && FieldOf(j, "spec_version") == Some(P.Number(input.specVersion))
    && FieldOf(j, "template").Some?
    && FieldOf(FieldOf(j, "template").value, "id") == Some(P.Text(input.templateId))
    && FieldOf(FieldOf(j, "template").value, "version") == Some(P.Text(input.templateVersion))
  }

  // ---------------------------------------------------------------- a record can be read

  lemma {:induction false} LookupAt(fields: seq<(string, Json)>, i: nat)
    requires i < |fields| && forall j :: 0 <= j < i ==> fields[j].0 != fields[i].0
    ensures Lookup(fields, fields[i].0) == Some(fields[i].1)
  {
    if i > 0 {
      assert forall j :: 0 <= j < i - 1 ==> fields[1..][j] == fields[j + 1];
      LookupAt(fields[1..], i - 1);
    }
  }

  lemma FieldAt(j: Json, i: nat, name: string, v: Json)
    requires j.Record? && i < |j.fields| && j.fields[i] == (name, v)
    requires forall k :: 0 <= k < i ==> j.fields[k].0 != name
    ensures FieldOf(j, name) == Some(v)
  {
    LookupAt(j.fields, i);
  }

  lemma AscendingCons(x: string, xs: seq<string>)
    requires Ascending(xs) && (xs != [] ==> Less(x, xs[0]))
    ensures Ascending([x] + xs)
  {
    hide Less;
    var all := [x] + xs;
    forall j | 0 < j < |all| ensures Less(x, all[j]) {
      if j > 1 { LessTransitive(x, xs[0], xs[j - 1]); }
    }
  }

  const ENTRY_FIELDS := ["files", "id", "version"]
  const TEMPLATE_FIELDS := ["id", "version"]
  const RECORD_FIELDS := ["brs_gen_version", "init_order", "manifest_keys", "modules", "spec_version", "template"]

  lemma NamesLess()
    ensures Less("id", "version") && Less("files", "id") && Less("spec_version", "template")
    ensures Less("modules", "spec_version") && Less("manifest_keys", "modules")
    ensures Less("init_order", "manifest_keys") && Less("brs_gen_version", "init_order")
  {
    var c, d := "manifest_keys", "modules";
    assert c[1..][0] == 'a' && d[1..][0] == 'o';
  }

  lemma EntryNamesAscend()
    ensures Ascending(ENTRY_FIELDS) && Ascending(TEMPLATE_FIELDS)
  {
    hide Less;
    NamesLess();
    AscendingCons("id", ["version"]);
    assert ["id"] + ["version"] == TEMPLATE_FIELDS;
    AscendingCons("files", TEMPLATE_FIELDS);
    assert ["files"] + TEMPLATE_FIELDS == ENTRY_FIELDS;
  }

  lemma RecordNamesAscend()
    ensures Ascending(RECORD_FIELDS)
  {
    hide Less;
    NamesLess();
    var names := RECORD_FIELDS;
    AscendingCons("spec_version", ["template"]);
    assert ["spec_version"] + ["template"] == names[4..];
    hide Ascending;
    AscendingCons("modules", names[4..]);
    assert ["modules"] + names[4..] == names[3..];
    AscendingCons("manifest_keys", names[3..]);
    assert ["manifest_keys"] + names[3..] == names[2..];
    AscendingCons("init_order", names[2..]);
    assert ["init_order"] + names[2..] == names[1..];
    AscendingCons("brs_gen_version", names[1..]);
    assert ["brs_gen_version"] + names[1..] == names;
  }

  /** The record with these names and values. */
  function RecordOf(names: seq<string>, values: seq<Json>): (j: Json)
    requires |names| == |values|
    ensures j.Record?
  {
    P.Record(seq(|names|, i requires 0 <= i < |names| => (names[i], values[i])))
  }

  lemma RecordCanonical(names: seq<string>, values: seq<Json>)
    requires |names| == |values| && Ascending(names) && forall i :: 0 <= i < |values| ==> Canonical(values[i])
    ensures Canonical(RecordOf(names, values))
  {
    assert MapSeq(FieldKey, RecordOf(names, values).fields) == names;
  }

  lemma RecordField(names: seq<string>, values: seq<Json>, i: nat)
    requires |names| == |values| && Ascending(names) && i < |names|
    ensures FieldOf(RecordOf(names, values), names[i]) == Some(values[i])
  {
    AscendingDistinct(names);
    FieldAt(RecordOf(names, values), i, names[i], values[i]);
  }

  function ModulesJson(modules: seq<P.Entry>): Json {
    var es := SortBy(modules, P.IdOf);
    P.List(seq(|es|, i requires 0 <= i < |es| => P.EntryJson(es[i])))
  }

  function EntryValues(e: P.Entry): seq<Json> { [P.Strings(Sort(e.files)), P.Text(e.id), P.Text(e.version)] }

  function RecordValues(input: P.Input): seq<Json> {
    [P.Text(input.brsGenVersion), P.Strings(input.initOrder), P.Strings(Sort(input.manifestKeys)),
     ModulesJson(input.modules), P.Number(input.specVersion),
     RecordOf(TEMPLATE_FIELDS, [P.Text(input.templateId), P.Text(input.templateVersion)])]
  }

  lemma EntryIs(e: P.Entry)
    ensures P.EntryJson(e) == RecordOf(ENTRY_FIELDS, EntryValues(e))
  {
    hide Sort, P.Strings;
  }

  lemma NormalizedIs(input: P.Input)
    ensures P.Normalized(input) == RecordOf(RECORD_FIELDS, RecordValues(input))
  {
    hide Sort, SortBy, P.Strings, P.EntryJson;
    var template := P.Record([("id", P.Text(input.templateId)), ("version", P.Text(input.templateVersion))]);
    assert template == RecordOf(TEMPLATE_FIELDS, [P.Text(input.templateId), P.Text(input.templateVersion)]);
  }

  lemma StringsCanonical(ss: seq<string>)
    ensures Canonical(P.Strings(ss))
  {
  }

  lemma EntryCanonical(e: P.Entry)
    ensures Canonical(P.EntryJson(e))
  {
    hide Ascending, Sort, RecordOf, P.Strings;
    EntryNamesAscend();
    StringsCanonical(Sort(e.files));
    EntryIs(e);
    RecordCanonical(ENTRY_FIELDS, EntryValues(e));
  }

  lemma ModulesCanonical(modules: seq<P.Entry>)
    ensures Canonical(ModulesJson(modules))
  {
    hide SortBy, P.EntryJson;
    var es := SortBy(modules, P.IdOf);
    forall i | 0 <= i < |es| ensures Canonical(P.EntryJson(es[i])) { EntryCanonical(es[i]); }
  }

  lemma NormalizedCanonical(input: P.Input)
    ensures Canonical(P.Normalized(input))
  {
    hide Ascending, Sort, RecordOf, ModulesJson, P.Strings, P.Normalized;
    EntryNamesAscend();
    RecordNamesAscend();
    StringsCanonical(input.initOrder);
    StringsCanonical(Sort(input.manifestKeys));
    ModulesCanonical(input.modules);
    RecordCanonical(TEMPLATE_FIELDS, [P.Text(input.templateId), P.Text(input.templateVersion)]);
    NormalizedIs(input);
    RecordCanonical(RECORD_FIELDS, RecordValues(input));
  }

  lemma ListsAll(ss: seq<string>)
    ensures Lists(Some(P.Strings(ss)), ss) && ListsSorted(Some(P.Strings(Sort(ss))), ss)
  {
    SortSorts(ss);
    assert Lists(Some(P.Strings(Sort(ss))), Sort(ss));
  }

  lemma EntryDescribes(e: P.Entry)
    ensures Describes(P.EntryJson(e), e)
  {
    hide Ascending, Sort, ListsSorted, P.Strings, RecordOf, FieldOf;
    ListsAll(e.files);
    EntryNamesAscend();
    EntryIs(e);
    RecordField(ENTRY_FIELDS, EntryValues(e), 0);
    RecordField(ENTRY_FIELDS, EntryValues(e), 1);
    RecordField(ENTRY_FIELDS, EntryValues(e), 2);
  }

  lemma ListsAllModules(modules: seq<P.Entry>)
    ensures ListsModules(Some(ModulesJson(modules)), modules)
  {
    hide Describes, P.EntryJson, SortBy, Sort, Sorted;
    var es := SortBy(modules, P.IdOf);
    SortByKeeps(modules, P.IdOf);
    SortByKeys(modules, P.IdOf);
    SortSorts(MapSeq(P.IdOf, modules));
    forall i | 0 <= i < |es| ensures Describes(P.EntryJson(es[i]), es[i]) { EntryDescribes(es[i]); }
  }

  lemma RecordFields(values: seq<Json>)
    requires |values| == 6
    ensures var j := RecordOf(RECORD_FIELDS, values);
            && FieldOf(j, "brs_gen_version") == Some(values[0]) && FieldOf(j, "init_order") == Some(values[1])
            && FieldOf(j, "manifest_keys") == Some(values[2]) && FieldOf(j, "modules") == Some(values[3])
            && FieldOf(j, "spec_version") == Some(values[4]) && FieldOf(j, "template") == Some(values[5])
  {
    hide Ascending, RecordOf, FieldOf;
    RecordNamesAscend();
    RecordField(RECORD_FIELDS, values, 0);
    RecordField(RECORD_FIELDS, values, 1);
    RecordField(RECORD_FIELDS, values, 2);
    RecordField(RECORD_FIELDS, values, 3);
    RecordField(RECORD_FIELDS, values, 4);
    RecordField(RECORD_FIELDS, values, 5);
  }

  lemma TemplateFields(id: Json, version: Json)
    ensures var j := RecordOf(TEMPLATE_FIELDS, [id, version]);
            FieldOf(j, "id") == Some(id) && FieldOf(j, "version") == Some(version)
  {
    hide Ascending, RecordOf, FieldOf;
    EntryNamesAscend();
    RecordField(TEMPLATE_FIELDS, [id, version], 0);
    RecordField(TEMPLATE_FIELDS, [id, version], 1);
  }

  lemma NormalizedRecords(input: P.Input)
    ensures Records(P.Normalized(input), input)
  {
    hide Sort, RecordOf, ModulesJson, P.Normalized, P.Strings, ListsSorted, Lists, ListsModules, FieldOf;
    NormalizedIs(input);
    RecordFields(RecordValues(input));
    TemplateFields(P.Text(input.templateId), P.Text(input.templateVersion));
    ListsAll(input.initOrder);
    ListsAll(input.manifestKeys);
    ListsAllModules(input.modules);
  }

  lemma RecordTells(input: P.Input)
    ensures ReadValue(P.BuildProvenance(input)) == Some((P.Normalized(input), ""))
  {
    hide ReadValue, P.StableStringify, P.Normalized, Canonical;
    NormalizedCanonical(input);
    var j := P.Normalized(input);
    ReadShown(j, "");
    assert P.StableStringify(j) + "" == P.StableStringify(j);
  }

  /** The text of a record reads, as a whole, as a record of the build. */
  lemma RecordReads(input: P.Input) returns (j: Json)
    ensures ReadValue(P.BuildProvenance(input)) == Some((j, "")) && Records(j, input)
  {
    hide ReadValue, P.BuildProvenance, P.Normalized, Records;
    j := P.Normalized(input);
    RecordTells(input);
    NormalizedRecords(input);
  }

  // ---------------------------------------------------------------- equal records

  ghost predicate SameEntry(e: P.Entry, f: P.Entry) {
    e.id == f.id && e.version == f.version && multiset(e.files) == multiset(f.files)
  }

  ghost predicate Among(e: P.Entry, fs: seq<P.Entry>) { exists f :: f in fs && SameEntry(e, f) }

  /** The same modules in some order, each with the same files in some order. */
  ghost predicate SameModules(es: seq<P.Entry>, fs: seq<P.Entry>) {
    (forall e :: e in es ==> Among(e, fs)) && (forall f :: f in fs ==> Among(f, es))
  }

  ghost predicate SameBuild(a: P.Input, b: P.Input) {
    && a.specVersion == b.specVersion && a.brsGenVersion == b.brsGenVersion
    && a.templateId == b.templateId && a.templateVersion == b.templateVersion
    && a.initOrder == b.initOrder
    && multiset(a.manifestKeys) == multiset(b.manifestKeys)
    && SameModules(a.modules, b.modules)
  }

  lemma StringsTell(ss: seq<string>, ts: seq<string>)
    requires P.Strings(ss) == P.Strings(ts)
    ensures ss == ts
  {
    var xs, ys := P.Strings(ss).items, P.Strings(ts).items;
    assert |ss| == |xs| == |ys| == |ts|;
    forall i | 0 <= i < |ss| ensures ss[i] == ts[i] { assert xs[i] == P.Text(ss[i]) && ys[i] == P.Text(ts[i]); }
  }

  lemma SortedTell(ss: seq<string>, ts: seq<string>)
    ensures P.Strings(Sort(ss)) == P.Strings(Sort(ts)) <==> multiset(ss) == multiset(ts)
  {
    hide Sort, P.Strings;
    SortSorts(ss);
    SortSorts(ts);
    if multiset(ss) == multiset(ts) { SortCanonical(ss, ts); }
    if P.Strings(Sort(ss)) == P.Strings(Sort(ts)) { StringsTell(Sort(ss), Sort(ts)); }
  }

  lemma EntryTells(e: P.Entry, f: P.Entry)
    ensures P.EntryJson(e) == P.EntryJson(f) <==> SameEntry(e, f)
  {
    hide Sort, P.Strings;
    SortedTell(e.files, f.files);
    var es, fs := P.EntryJson(e).fields, P.EntryJson(f).fields;
    if P.EntryJson(e) == P.EntryJson(f) {
      assert es[0] == fs[0] && es[1] == fs[1] && es[2] == fs[2];
    }
  }

  lemma ModulesTell(es: seq<P.Entry>, fs: seq<P.Entry>)
    requires ModulesJson(es) == ModulesJson(fs)
    ensures SameModules(es, fs)
  {
    hide SortBy, P.EntryJson, SameEntry;
    var xs, ys := SortBy(es, P.IdOf), SortBy(fs, P.IdOf);
    SortByMembers(es, P.IdOf);
    SortByMembers(fs, P.IdOf);
    var js, ks := ModulesJson(es).items, ModulesJson(fs).items;
    assert |xs| == |js| == |ks| == |ys|;
    forall i | 0 <= i < |xs| ensures SameEntry(xs[i], ys[i]) {
      assert js[i] == P.EntryJson(xs[i]) && ks[i] == P.EntryJson(ys[i]);
      EntryTells(xs[i], ys[i]);
    }
    forall e | e in es ensures Among(e, fs) {
      assert e in xs;
      var i :| 0 <= i < |xs| && xs[i] == e;
      assert ys[i] in ys;
    }
    forall f | f in fs ensures Among(f, es) {
      assert f in ys;
      var i :| 0 <= i < |ys| && ys[i] == f;
      assert xs[i] in xs;
      EntryTells(xs[i], ys[i]);
      EntryTells(ys[i], xs[i]);
    }
  }

  lemma OneAmong(e: P.Entry, fs: seq<P.Entry>) returns (f: P.Entry)
    requires Among(e, fs)
    ensures f in fs && SameEntry(e, f) && P.IdOf(e) == P.IdOf(f)
  {
    f :| f in fs && SameEntry(e, f);
  }

  ghost function IdSet(es: seq<P.Entry>): set<string> { set e | e in es :: P.IdOf(e) }

  lemma SameIds(es: seq<P.Entry>, fs: seq<P.Entry>)
    requires SameModules(es, fs)
    ensures IdSet(es) == IdSet(fs)
  {
    hide Among, SameEntry;
    forall e | e in es ensures P.IdOf(e) in IdSet(fs) { var f := OneAmong(e, fs); }
    forall f | f in fs ensures P.IdOf(f) in IdSet(es) { var e := OneAmong(f, es); }
  }

  lemma SortedIds(es: seq<P.Entry>)
    requires DistinctKeys(es, P.IdOf)
    ensures MapSeq(P.IdOf, SortBy(es, P.IdOf)) == Ordered(IdSet(es))
  {
    hide SortBy, Ascending, Ordered;
    var xs := SortBy(es, P.IdOf);
    SortByMembers(es, P.IdOf);
    SortByAscends(es, P.IdOf);
    AscendingIsOrdered(MapSeq(P.IdOf, xs));
    KeySet(xs, P.IdOf);
    assert IdSet(xs) == IdSet(es);
    assert ToSet(MapSeq(P.IdOf, xs)) == IdSet(xs);
  }

  lemma SameModulesSameText(es: seq<P.Entry>, fs: seq<P.Entry>)
    requires DistinctKeys(es, P.IdOf) && DistinctKeys(fs, P.IdOf) && SameModules(es, fs)
    ensures ModulesJson(es) == ModulesJson(fs)
  {
    hide SortBy, P.EntryJson, Ordered, IdSet, DistinctKeys, Among, SameEntry;
    var xs, ys := SortBy(es, P.IdOf), SortBy(fs, P.IdOf);
    SortByMembers(es, P.IdOf);
    SortByMembers(fs, P.IdOf);
    SameIds(es, fs);
    SortedIds(es);
    SortedIds(fs);
    assert |xs| == |MapSeq(P.IdOf, xs)| == |MapSeq(P.IdOf, ys)| == |ys|;
    forall i | 0 <= i < |xs| ensures P.EntryJson(xs[i]) == P.EntryJson(ys[i]) {
      assert xs[i] in xs && ys[i] in ys;
      var f := OneAmong(xs[i], fs);
      assert P.IdOf(ys[i]) == MapSeq(P.IdOf, ys)[i] == MapSeq(P.IdOf, xs)[i] == P.IdOf(xs[i]);
      SameIdSame(fs, ys[i], f);
      EntryTells(xs[i], ys[i]);
    }
  }

  lemma SameIdSame(es: seq<P.Entry>, e: P.Entry, f: P.Entry)
    requires DistinctKeys(es, P.IdOf) && e in es && f in es && P.IdOf(e) == P.IdOf(f)
    ensures e == f
  {
    var i :| 0 <= i < |es| && es[i] == e;
    var j :| 0 <= j < |es| && es[j] == f;
    assert !(i < j) && !(j < i);
  }

  lemma NormalizedTells(a: P.Input, b: P.Input)
    requires P.Normalized(a) == P.Normalized(b)
    ensures SameBuild(a, b)
  {
    hide RecordOf, ModulesJson, Sort, P.Normalized, P.Strings, FieldOf, SameModules;
    NormalizedIs(a);
    NormalizedIs(b);
    RecordFields(RecordValues(a));
    RecordFields(RecordValues(b));
    TemplateFields(P.Text(a.templateId), P.Text(a.templateVersion));
    TemplateFields(P.Text(b.templateId), P.Text(b.templateVersion));
    StringsTell(a.initOrder, b.initOrder);
    SortedTell(a.manifestKeys, b.manifestKeys);
    ModulesTell(a.modules, b.modules);
  }

  /**
   Two records are equal exactly if they come from the same build: the same versions, template and initialisation
   order, the same manifest keys in any order, and the same modules in any order with the same files in any order.
   */
  lemma SameRecordIff(a: P.Input, b: P.Input)
    requires DistinctKeys(a.modules, P.IdOf) && DistinctKeys(b.modules, P.IdOf)
    ensures P.BuildProvenance(a) == P.BuildProvenance(b) <==> SameBuild(a, b)
  {
    hide ReadValue, P.StableStringify, P.Normalized, Canonical, SameModules;
    if P.BuildProvenance(a) == P.BuildProvenance(b) {
      RecordTells(a);
      RecordTells(b);
      NormalizedTells(a, b);
    }
    if SameBuild(a, b) { SameBuildSameRecord(a, b); }
  }

  lemma SameBuildSameRecord(a: P.Input, b: P.Input)
    requires DistinctKeys(a.modules, P.IdOf) && DistinctKeys(b.modules, P.IdOf) && SameBuild(a, b)
    ensures P.Normalized(a) == P.Normalized(b)
  {
    hide RecordOf, ModulesJson, Sort, P.Normalized, P.Strings, SameModules;
    NormalizedIs(a);
    NormalizedIs(b);
    SortedTell(a.manifestKeys, b.manifestKeys);
    SameModulesSameText(a.modules, b.modules);
    assert RecordValues(a) == RecordValues(b);
  }
}

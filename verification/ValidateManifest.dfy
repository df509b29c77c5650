/**
 The check of an emitted project: its manifest is parsed, its record is read, and the keys of the two are compared. What
 the record of a successful build holds, and when the check finds drift in such a project.
 */
module ValidateManifest {
  import opened Wrappers
  import opened Order
  import opened Seqs
  import opened Catalog
  import Build
  import JsonReader
  import ManifestText
  import Provenance
  import RecordReader

  // ---------------------------------------------------------------- the check

  /** Keys of the record that the manifest lacks, and keys of the manifest that the record lacks. */
  datatype Drift = Drift(missingInManifest: seq<string>, extraInManifest: seq<string>)

  function TextsOf(items: seq<JsonReader.Json>): seq<string> {
    if items == [] then [] else (if items[0].Text? then [items[0].s] else []) + TextsOf(items[1..])
  }

  /** The recorded keys; a record without a list of keys counts as one with an empty list. */
  function RecordedKeys(record: JsonReader.Json): seq<string> {
    match RecordReader.FieldOf(record, "manifest_keys")
    case Some(List(items)) => TextsOf(items)
    case _ => []
  }

  /** The drift, or nothing if the record cannot be read. */
  function Validation(manifest: string, record: string): Option<Drift> {
    match JsonReader.ReadValue(record)
    case None => None
    case Some((j, rest)) =>
      if rest != "" then None
      else
        var recorded, parsed := RecordedKeys(j), ManifestText.Parse(manifest);
        Some(Drift(ManifestText.MissingInManifest(recorded, parsed), ManifestText.ExtraInManifest(recorded, parsed)))
  }

  /**
   The check fails exactly if the record is not a value and nothing more. Else the first list of drift holds the
   recorded keys that the manifest lacks, each as often as recorded, sorted; and the second the keys of the manifest
   that are not recorded, each once, ascending.
   */
  lemma DriftIs(manifest: string, record: string)
    ensures Validation(manifest, record) == None <==> forall j :: JsonReader.ReadValue(record) != Some((j, ""))
    ensures Validation(manifest, record).Some? ==>
              var drift, j := Validation(manifest, record).value, JsonReader.ReadValue(record).value.0;
              var recorded, parsed := RecordedKeys(j), ManifestText.Parse(manifest);
              && Sorted(drift.missingInManifest) && Ascending(drift.extraInManifest)
              && (forall k :: multiset(drift.missingInManifest)[k] == if k in parsed then 0 else multiset(recorded)[k])
              && forall k :: k in drift.extraInManifest <==> k in parsed && k !in recorded
  {
    hide JsonReader.ReadValue, ManifestText.Parse, ManifestText.MissingInManifest, ManifestText.ExtraInManifest,
      RecordedKeys, Sorted, Ascending;
    if JsonReader.ReadValue(record).Some? {
      var j := JsonReader.ReadValue(record).value.0;
      assert JsonReader.ReadValue(record).value == (j, JsonReader.ReadValue(record).value.1);
      ManifestText.MissingAre(RecordedKeys(j), ManifestText.Parse(manifest));
      ManifestText.ExtraAre(RecordedKeys(j), ManifestText.Parse(manifest));
    }
  }

  // ---------------------------------------------------------------- what the record of a build holds

  /** What is recorded of a module: its files, and the configuration file made for it. */
  ghost predicate EntryFor(e: Provenance.Entry, m: Module) {
    && e.id == m.id && e.version == m.version
    && e.files == m.files + ["source/_modules/" + Build.BsId(m.id) + "/config.bs"]
  }

  /** A record of this input, these modules, this order and these keys. */
  ghost predicate RecordedAs(r: Provenance.Input, input: Build.Input, ms: seq<Module>, p: Build.Project) {
    && r.specVersion == input.specVersion && r.brsGenVersion == input.brsGenVersion
    && r.templateId == input.template.id && r.templateVersion == input.template.version
    && r.initOrder == p.initOrder
    && Ascending(r.manifestKeys) && ToSet(r.manifestKeys) == p.manifest.Keys
    && |r.modules| == |ms| && forall i :: 0 <= i < |ms| ==> EntryFor(r.modules[i], ms[i])
  }

  /** The record of a successful build can be read, and holds under their names what was built. */
  lemma BuiltRecord(input: Build.Input, ms: seq<Module>) returns (j: JsonReader.Json, r: Provenance.Input)
    requires Build.BuildOf(input, ms).Built?
    ensures var p := Build.BuildOf(input, ms).project;
            && JsonReader.ReadValue(p.provenance) == Some((j, ""))
            && RecordReader.Records(j, r) && RecordedAs(r, input, ms, p)
  {
    hide Build.BuildOf, Build.AllFiles, Build.Hooks, JsonReader.ReadValue, RecordReader.Records, SortBy, Ascending,
      Provenance.BuildProvenance, ManifestText.Print;
    var p, order, manifest := Build.BuiltParts(input, ms);
    r := Provenance.Input(input.specVersion, input.template.id, input.template.version, Build.Entries(ms), order,
                          Ordered(manifest.Keys), input.brsGenVersion);
    OrderedAscending(manifest.Keys);
    j := RecordReader.RecordReads(r);
  }

  lemma {:induction false} TextsOfTexts(items: seq<JsonReader.Json>, texts: seq<string>)
    requires |items| == |texts| && forall i :: 0 <= i < |texts| ==> items[i] == Provenance.Text(texts[i])
    ensures TextsOf(items) == texts
  {
    if texts != [] {
      TextsOfTexts(items[1..], texts[1..]);
      assert [texts[0]] + texts[1..] == texts;
    }
  }

  lemma AscendingSorted(xs: seq<string>)
    requires Ascending(xs)
    ensures Sorted(xs)
  {
  }

  /** The recorded keys are those of the manifest, in ascending order. */
  lemma BuiltKeys(j: JsonReader.Json, r: Provenance.Input)
    requires RecordReader.Records(j, r) && Ascending(r.manifestKeys)
    ensures RecordedKeys(j) == r.manifestKeys
  {
    hide Ascending, RecordReader.FieldOf, RecordReader.ListsModules;
    var keys := RecordReader.FieldOf(j, "manifest_keys");
    var sorted :| Sorted(sorted) && multiset(sorted) == multiset(r.manifestKeys) && RecordReader.Lists(keys, sorted);
    AscendingSorted(r.manifestKeys);
    SortedUnique(sorted, r.manifestKeys);
    TextsOfTexts(keys.value.items, sorted);
  }

  /**
   The check of a project as it was built finds no drift exactly if all keys of the manifest are clean and no value has
   a further line that reads as an entry for a key that the manifest lacks.
   */
  lemma BuiltDriftsIff(input: Build.Input, ms: seq<Module>)
    requires Build.BuildOf(input, ms).Built?
    ensures var p := Build.BuildOf(input, ms).project;
            var manifest, record := ManifestText.Print(p.manifest), p.provenance;
            && Build.File("manifest", manifest) in p.files
            && Build.File(".rokudev-tools/provenance.json", record) in p.files
            && Validation(manifest, record).Some?
            && (Validation(manifest, record) == Some(Drift([], []))
                <==> forall k :: k in p.manifest ==>
                       ManifestText.CleanKey(k) && ManifestText.AddsNoKey(p.manifest, p.manifest[k]))
  {
    hide Build.BuildOf, ManifestText.Print, ManifestText.Parse, ManifestText.CleanKey, ManifestText.AddsNoKey,
      ManifestText.MissingInManifest, ManifestText.ExtraInManifest, RecordReader.Records, RecordedKeys, Ordered,
      JsonReader.ReadValue, Ascending;
    var p := Build.BuildOf(input, ms).project;
    var j, r := BuiltRecord(input, ms);
    BuiltKeys(j, r);
    AscendingIsOrdered(r.manifestKeys);
    ManifestText.NoDriftAfterBuildIff(p.manifest);
    Build.BuiltHasManifest(input, ms);
  }
}

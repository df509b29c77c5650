/**
 The build as a whole: conflicts, initialisation order, wiring, manifest, configuration, dispatch file and record. What
 is emitted does not depend on the order in which the modules are listed.
 */
module Build {
  import opened Wrappers
  import opened Order
  import opened Seqs
  import opened Catalog
  import BsValue
  import Conflicts
  import InitHooks
  import InitOrder
  import ManifestText
  import MergeManifest
  import Provenance
  import Text
  import TopoSort
  import Wiring

  datatype File = File(path: string, content: string)

  function PathOf(f: File): string { f.path }

  /**
   What a build is given besides the modules: the template with its rendered manifest defaults and files, the manifest
   entries of the assets, the configuration of each module, and the bytes of the files that modules add. Template
   components in XML, into which script tags are injected, are represented by their paths alone.
   */
  datatype Input = Input(
    specVersion: Provenance.NumText, brsGenVersion: string, template: Template, templatePaths: seq<string>,
    templateFiles: seq<File>, renderedDefaults: map<string, string>, assetEntries: map<string, string>,
    configs: map<string, BsValue.Value>, bytes: map<string, string>, assets: seq<File>, templateConfig: Option<string>)

  datatype Stage = AtConflicts | AtInitOrder | AtWiring | AtManifest | AtConfig | AtFiles

  datatype Project = Project(
    files: seq<File>, manifest: map<string, string>, hooks: string, provenance: string, initOrder: seq<string>)

  datatype Result = Built(project: Project) | Failed(stage: Stage)

  // ---------------------------------------------------------------- the parts of the output

  /** A module id as part of an identifier: every dot becomes an underscore. */
  function BsId(id: string): string { if id == [] then [] else [if id[0] == '.' then '_' else id[0]] + BsId(id[1..]) }

  function ConfigPath(id: string): string { "source/_modules/" + BsId(id) + "/config.bs" }

  function ConfigOf(input: Input, id: string): BsValue.Value {
    if id in input.configs then input.configs[id] else BsValue.Obj(BsValue.NoFields)
  }

  function ConfigText(id: string, body: string): string {
    "' Auto-generated by brs-gen. Do not edit by hand.\nfunction ModuleConfig_" + BsId(id) + "() as object\n  return "
    + body + "\nend function\n"
  }

  predicate ConfigPrints(input: Input, m: Module) { BsValue.StringifyAsBsValue(ConfigOf(input, m.id)).Some? }

  predicate ConfigsPrint(input: Input, ms: seq<Module>) { forall m :: m in ms ==> ConfigPrints(input, m) }

  function ConfigFile(input: Input, m: Module): File {
    File(ConfigPath(m.id), ConfigText(m.id, BsValue.Text(ConfigOf(input, m.id))))
  }

  function ConfigFiles(input: Input, ms: seq<Module>): (files: seq<File>)
    ensures |files| == |ms| && forall i :: 0 <= i < |ms| ==> files[i] == ConfigFile(input, ms[i])
  {
    seq(|ms|, i requires 0 <= i < |ms| => ConfigFile(input, ms[i]))
  }

  /** Template defaults win over the manifest entries of assets. */
  function Defaults(input: Input): map<string, string> { input.assetEntries + input.renderedDefaults }

  function FileOf(input: Input, path: string): File {
    File(path, if path in input.bytes then input.bytes[path] else "")
  }

  function FilesOf(input: Input, paths: seq<string>): (files: seq<File>)
    ensures |files| == |paths| && forall i :: 0 <= i < |paths| ==> files[i] == FileOf(input, paths[i])
  {
    seq(|paths|, i requires 0 <= i < |paths| => FileOf(input, paths[i]))
  }

  function ModuleFiles(input: Input, ms: seq<Module>): seq<File> {
    if ms == [] then [] else ModuleFiles(input, ms[..|ms| - 1]) + FilesOf(input, ms[|ms| - 1].files)
  }

  predicate BytesPresent(input: Input, m: Module) { forall p :: p in m.files ==> p in input.bytes }

  predicate AllPresent(input: Input, ms: seq<Module>) { forall m :: m in ms ==> BytesPresent(input, m) }

  function TemplateConfigFiles(input: Input): seq<File> {
    if input.templateConfig.Some? then [File("source/_template/config.bs", input.templateConfig.value)] else []
  }

  function EntryOf(m: Module): Provenance.Entry { Provenance.Entry(m.id, m.version, m.files + [ConfigPath(m.id)]) }

  function Entries(ms: seq<Module>): (es: seq<Provenance.Entry>)
    ensures |es| == |ms| && forall i :: 0 <= i < |ms| ==> es[i] == EntryOf(ms[i])
  {
    seq(|ms|, i requires 0 <= i < |ms| => EntryOf(ms[i]))
  }

  function RecordOf(input: Input, ms: seq<Module>, order: seq<string>, manifest: map<string, string>): string {
    Provenance.BuildProvenance(
      Provenance.Input(input.specVersion, input.template.id, input.template.version, Entries(ms), order,
                       Ordered(manifest.Keys), input.brsGenVersion))
  }

  function AllFiles(input: Input, ms: seq<Module>, hooks: string, manifest: string, provenance: string): seq<File> {
    input.templateFiles + ModuleFiles(input, ms) + input.assets + ConfigFiles(input, ms) + TemplateConfigFiles(input)
    + [File("source/_modules/__init_hooks.bs", hooks), File("manifest", manifest),
       File(".rokudev-tools/provenance.json", provenance)]
  }

  function Hooks(input: Input, ms: seq<Module>, order: seq<string>): string {
    InitHooks.HooksText(input.template.hooks, order, InitHooks.Declared(ms), Wiring.Matched(input.template, ms))
  }

  function Emit(input: Input, ms: seq<Module>, order: seq<string>, manifest: map<string, string>): Project {
    var hooks, provenance := Hooks(input, ms, order), RecordOf(input, ms, order, manifest);
    Project(SortBy(AllFiles(input, ms, hooks, ManifestText.Print(manifest), provenance), PathOf),
            manifest, hooks, provenance, order)
  }

  /** The stages in their order; the first that fails ends the build. */
  function BuildOf(input: Input, ms: seq<Module>): Result {
    if Conflicts.Detect(ms, input.templatePaths).Found? then Failed(AtConflicts)
    else
      match InitOrder.Sorting(ms)
      case Cycle(_) => Failed(AtInitOrder)
      case Order(order) =>
        if Wiring.Validation(input.template, ms).Failed? then Failed(AtWiring)
        else
          match MergeManifest.Merge(Defaults(input), MergeManifest.Contributions(ms))
          case Failed(_) => Failed(AtManifest)
          case Merged(manifest) =>
            if !ConfigsPrint(input, ms) then Failed(AtConfig)
            else if !AllPresent(input, ms) then Failed(AtFiles)
            else Built(Emit(input, ms, order, manifest))
  }

  // ---------------------------------------------------------------- the build as it runs

  method EmitConfigs(input: Input, ms: seq<Module>) returns (files: Option<seq<File>>)
    ensures files == if !ConfigsPrint(input, ms) then None else Some(ConfigFiles(input, ms))
  {
    hide BsValue.Text, BsValue.HasControl, ConfigOf, ConfigText, ConfigPath;
    var out: seq<File> := [];
    var i := 0;
    while i < |ms|
      invariant 0 <= i <= |ms|
      invariant out == ConfigFiles(input, ms[..i]) && forall m :: m in ms[..i] ==> ConfigPrints(input, m)
    {
      var body := BsValue.StringifyAsBsValue(ConfigOf(input, ms[i].id));
      if body.None? {
        assert ms[i] in ms && !ConfigPrints(input, ms[i]);
        return None;
      }
      out := out + [File(ConfigPath(ms[i].id), ConfigText(ms[i].id, body.value))];
      assert forall m :: m in ms[..i + 1] <==> m in ms[..i] || m == ms[i];
      i := i + 1;
    }
    assert ms[..i] == ms;
    files := Some(out);
  }

  lemma NextModule(input: Input, ms: seq<Module>, i: nat)
    requires i < |ms|
    ensures ModuleFiles(input, ms[..i + 1]) == ModuleFiles(input, ms[..i]) + FilesOf(input, ms[i].files)
    ensures AllPresent(input, ms[..i + 1]) <==> AllPresent(input, ms[..i]) && BytesPresent(input, ms[i])
  {
    hide BytesPresent;
    var upTo := ms[..i + 1];
    assert upTo[..|upTo| - 1] == ms[..i] && upTo[|upTo| - 1] == ms[i];
    assert forall m :: m in upTo <==> m in ms[..i] || m == ms[i];
  }

  lemma NextPath(input: Input, paths: seq<string>, j: nat)
    requires j < |paths|
    ensures FilesOf(input, paths[..j + 1]) == FilesOf(input, paths[..j]) + [FileOf(input, paths[j])]
    ensures forall p :: p in paths[..j + 1] <==> p in paths[..j] || p == paths[j]
  {
    hide FileOf;
  }

  method CopyFiles(input: Input, ms: seq<Module>) returns (files: Option<seq<File>>)
    ensures files == if !AllPresent(input, ms) then None else Some(ModuleFiles(input, ms))
  {
    hide FilesOf;
    var out: seq<File> := [];
    var i := 0;
    while i < |ms|
      invariant 0 <= i <= |ms|
      invariant out == ModuleFiles(input, ms[..i]) && AllPresent(input, ms[..i])
    {
      var m := ms[i];
      var j := 0;
      while j < |m.files|
        invariant 0 <= j <= |m.files|
        invariant out == ModuleFiles(input, ms[..i]) + FilesOf(input, m.files[..j])
        invariant forall p :: p in m.files[..j] ==> p in input.bytes
      {
        if m.files[j] !in input.bytes {
          assert m in ms && m.files[j] in m.files && !BytesPresent(input, m);
          return None;
        }
        NextPath(input, m.files, j);
        out := out + [File(m.files[j], input.bytes[m.files[j]])];
        j := j + 1;
      }
      assert m.files[..j] == m.files;
      NextModule(input, ms, i);
      i := i + 1;
    }
    assert ms[..i] == ms;
    files := Some(out);
  }

  /** The record and the files of the project, once every stage has succeeded. */
  method Assemble(input: Input, ms: seq<Module>, order: seq<string>, manifest: map<string, string>, hooks: string,
                  moduleFiles: seq<File>, configFiles: seq<File>)
    returns (p: Project)
    requires hooks == Hooks(input, ms, order)
    requires moduleFiles == ModuleFiles(input, ms) && configFiles == ConfigFiles(input, ms)
    ensures p == Emit(input, ms, order, manifest)
  {
    hide ModuleFiles, ConfigFiles, Hooks, RecordOf, ManifestText.Print, SortBy, TemplateConfigFiles;
    var provenance := RecordOf(input, ms, order, manifest);
    var all := input.templateFiles + moduleFiles + input.assets + configFiles + TemplateConfigFiles(input)
      + [File("source/_modules/__init_hooks.bs", hooks), File("manifest", ManifestText.Print(manifest)),
         File(".rokudev-tools/provenance.json", provenance)];
    p := Project(SortBy(all, PathOf), manifest, hooks, provenance, order);
  }

  method BuildEmittedProject(input: Input, ms: seq<Module>) returns (r: Result)
    requires DistinctIds(ms)
    ensures r == BuildOf(input, ms)
  {
    hide Conflicts.Detect, InitOrder.Sorting, Wiring.Validation, Wiring.Matched, MergeManifest.Merge,
      MergeManifest.Contributions, ModuleFiles, ConfigFiles, ConfigsPrint, AllPresent, InitHooks.HooksText,
      InitHooks.Declared, Emit, Defaults, DistinctIds;
    var conflicts := Conflicts.DetectConflicts(ms, input.templatePaths);
    if conflicts.Found? { return Failed(AtConflicts); }
    var topo := TopoSort.TopoSort(ms);
    if topo.Cycle? { return Failed(AtInitOrder); }
    var wiring := Wiring.ValidateWiring(input.template, ms);
    if wiring.Failed? { return Failed(AtWiring); }
    InitHooks.WiredGivesMatched(input.template, ms);
    var merged := MergeManifest.MergeManifest(Defaults(input), ms);
    if merged.Failed? { return Failed(AtManifest); }
    var configFiles := EmitConfigs(input, ms);
    if configFiles.None? { return Failed(AtConfig); }
    var callsByModule := InitHooks.GroupCalls(ms);
    var hooks := InitHooks.EmitInitHooks(input.template.hooks, topo.order, callsByModule, wiring.matched,
                                         InitHooks.Declared(ms));
    var moduleFiles := CopyFiles(input, ms);
    if moduleFiles.None? { return Failed(AtFiles); }
    var project := Assemble(input, ms, topo.order, merged.manifest, hooks, moduleFiles.value, configFiles.value);
    r := Built(project);
  }

  // ---------------------------------------------------------------- when a build succeeds, and where it fails

  /** The contributions of all modules. */
  ghost predicate AreContributions(ms: seq<Module>, C: set<MergeManifest.Contribution>) {
    forall c :: c in C <==> exists m :: m in ms && c in m.manifest
  }

  /** No string in the configuration of a module is unwritable. */
  ghost predicate ConfigsWritable(input: Input, ms: seq<Module>) {
    forall m, s :: m in ms && s in BsValue.StringsIn(ConfigOf(input, m.id)) ==> !BsValue.Unwritable(s)
  }

  ghost predicate FilesPresent(input: Input, ms: seq<Module>) {
    forall m, path :: m in ms && path in m.files ==> path in input.bytes
  }

  lemma ConfigsPrintIff(input: Input, ms: seq<Module>)
    ensures (forall m :: m in ms ==> ConfigPrints(input, m)) <==> ConfigsWritable(input, ms)
  {
    hide BsValue.Text, BsValue.HasControl, BsValue.StringsIn, BsValue.Unwritable, ConfigOf;
    forall m | m in ms
      ensures ConfigPrints(input, m) <==>
        forall s :: s in BsValue.StringsIn(ConfigOf(input, m.id)) ==> !BsValue.Unwritable(s)
    {
      BsValue.RefusedIff(ConfigOf(input, m.id));
    }
  }

  /**
   The build fails at the first of its stages whose condition does not hold: modules fit together, constraints have no
   cycle, every module is wired, contributions agree, configurations can be written, files are there. If all hold, it
   succeeds.
   */
  lemma StageIs(input: Input, ms: seq<Module>, C: set<MergeManifest.Contribution>)
    requires AreContributions(ms, C)
    ensures BuildOf(input, ms)
         == if !Conflicts.Compatible(ms, input.templatePaths) then Failed(AtConflicts)
            else if !InitOrder.Acyclic(InitOrder.Edges(ms)) then Failed(AtInitOrder)
            else if exists m :: m in ms && !Wiring.ModuleWired(input.template, m) then Failed(AtWiring)
            else if !MergeManifest.Accepts(Defaults(input), C) then Failed(AtManifest)
            else if !ConfigsWritable(input, ms) then Failed(AtConfig)
            else if !FilesPresent(input, ms) then Failed(AtFiles)
            else Built(BuiltOf(input, ms))
  {
    hide Conflicts.Detect, Conflicts.Compatible, InitOrder.Sorting, InitOrder.Acyclic, InitOrder.Edges,
      Wiring.Validation, Wiring.ModuleWired, MergeManifest.Merge, MergeManifest.Accepts, MergeManifest.Contributions,
      MergeManifest.IsMerge, ConfigPrints, ConfigsWritable, Emit, Defaults;
    Conflicts.NoConflictIff(ms, input.templatePaths);
    InitOrder.SortsIffAcyclic(ms);
    Wiring.WiredIff(input.template, ms);
    ContributionsMembers(ms);
    assert ToSet(MergeManifest.Contributions(ms)) == C;
    MergeManifest.MergeSpecification(Defaults(input), MergeManifest.Contributions(ms));
    ConfigsPrintIff(input, ms);
    assert FilesPresent(input, ms) <==> forall m :: m in ms ==> BytesPresent(input, m);
  }

  /** What is emitted when all stages succeed. */
  function BuiltOf(input: Input, ms: seq<Module>): Project {
    var sorting, merge := InitOrder.Sorting(ms),
                          MergeManifest.Merge(Defaults(input), MergeManifest.Contributions(ms));
    Emit(input, ms, if sorting.Order? then sorting.order else [], if merge.Merged? then merge.manifest else map[])
  }

  // ---------------------------------------------------------------- the order of modules does not matter

  lemma {:induction false} ContributionsMembers(ms: seq<Module>)
    ensures forall c :: c in MergeManifest.Contributions(ms) <==> exists m :: m in ms && c in m.manifest
    decreases |ms|
  {
    if ms != [] {
      ContributionsMembers(ms[..|ms| - 1]);
      assert forall m :: m in ms <==> m in ms[..|ms| - 1] || m == ms[|ms| - 1];
    }
  }

  /** The merge succeeds or fails alike, with the same manifest. */
  lemma MergePermuted(defaults: map<string, string>, ms: seq<Module>, ns: seq<Module>)
    requires Permuted(ms, ns)
    ensures var r, s := MergeManifest.Merge(defaults, MergeManifest.Contributions(ms)),
                        MergeManifest.Merge(defaults, MergeManifest.Contributions(ns));
            (r.Merged? <==> s.Merged?) && (r.Merged? ==> r == s)
  {
    hide MergeManifest.Merge, MergeManifest.Contributions, MergeManifest.Accepts, MergeManifest.IsMerge;
    var c, d := MergeManifest.Contributions(ms), MergeManifest.Contributions(ns);
    PermutedMembers(ms, ns);
    ContributionsMembers(ms);
    ContributionsMembers(ns);
    assert ToSet(c) == ToSet(d);
    MergeManifest.MergeSpecification(defaults, c);
    MergeManifest.MergeSpecification(defaults, d);
    if MergeManifest.Merge(defaults, c).Merged? {
      MergeManifest.IsMergeUnique(defaults, ToSet(c), MergeManifest.Merge(defaults, c).manifest,
                                  MergeManifest.Merge(defaults, d).manifest);
    }
  }

  lemma ConflictsPermuted(ms: seq<Module>, ns: seq<Module>, templatePaths: seq<string>)
    requires DistinctIds(ms) && Permuted(ms, ns)
    ensures Conflicts.Detect(ms, templatePaths).Found? <==> Conflicts.Detect(ns, templatePaths).Found?
  {
    hide Conflicts.Detect, Conflicts.Compatible;
    PermutedDistinct(ms, ns);
    Conflicts.NoConflictIff(ms, templatePaths);
    Conflicts.NoConflictIff(ns, templatePaths);
    if Conflicts.Compatible(ms, templatePaths) { Conflicts.CompatiblePermuted(ms, ns, templatePaths); }
    if Conflicts.Compatible(ns, templatePaths) { Conflicts.CompatiblePermuted(ns, ms, templatePaths); }
  }

  lemma WiringPermuted(t: Template, ms: seq<Module>, ns: seq<Module>)
    requires Permuted(ms, ns)
    ensures Wiring.Validation(t, ms).Failed? <==> Wiring.Validation(t, ns).Failed?
  {
    hide Wiring.Validation, Wiring.ModuleWired;
    PermutedMembers(ms, ns);
    Wiring.WiredIff(t, ms);
    Wiring.WiredIff(t, ns);
  }

  lemma RecordPermuted(input: Input, ms: seq<Module>, ns: seq<Module>, order: seq<string>,
                       manifest: map<string, string>)
    requires DistinctIds(ms) && Permuted(ms, ns)
    ensures RecordOf(input, ms, order, manifest) == RecordOf(input, ns, order, manifest)
  {
    PermutedDistinct(ms, ns);
    EntriesMembers(ms, ns);
    EntriesMembers(ns, ms);
    Provenance.ProvenanceCanonical(
      Provenance.Input(input.specVersion, input.template.id, input.template.version, Entries(ms), order,
                       Ordered(manifest.Keys), input.brsGenVersion),
      Provenance.Input(input.specVersion, input.template.id, input.template.version, Entries(ns), order,
                       Ordered(manifest.Keys), input.brsGenVersion));
  }

  lemma EntriesMembers(ms: seq<Module>, ns: seq<Module>)
    requires Permuted(ms, ns)
    ensures forall e :: e in Entries(ms) ==> e in Entries(ns)
  {
    PermutedMembers(ms, ns);
    forall e | e in Entries(ms) ensures e in Entries(ns) {
      var i :| 0 <= i < |ms| && Entries(ms)[i] == e;
      assert ms[i] in ns;
      var k :| 0 <= k < |ns| && ns[k] == ms[i];
      assert Entries(ns)[k] == e;
    }
  }

  /** The projects agree in everything but, where paths clash, the order of files with the same path. */
  ghost predicate SameOutput(p: Project, q: Project) {
    && p.manifest == q.manifest && p.hooks == q.hooks && p.provenance == q.provenance && p.initOrder == q.initOrder
    && multiset(p.files) == multiset(q.files)
    && MapSeq(PathOf, p.files) == MapSeq(PathOf, q.files)
    && (DistinctKeys(p.files, PathOf) ==> p.files == q.files)
  }

  lemma {:induction false} ModuleFilesAppend(input: Input, ms: seq<Module>, ns: seq<Module>)
    ensures ModuleFiles(input, ms + ns) == ModuleFiles(input, ms) + ModuleFiles(input, ns)
    decreases |ns|
  {
    if ns == [] {
      assert ms + ns == ms;
    } else {
      var all := ms + ns;
      assert all[..|all| - 1] == ms + ns[..|ns| - 1];
      ModuleFilesAppend(input, ms, ns[..|ns| - 1]);
    }
  }

  /** The same files are emitted, each as often. */
  lemma FilesPermuted(input: Input, ms: seq<Module>, ns: seq<Module>,
                      hooks: string, manifest: string, provenance: string)
    requires Permuted(ms, ns)
    ensures multiset(AllFiles(input, ms, hooks, manifest, provenance))
         == multiset(AllFiles(input, ns, hooks, manifest, provenance))
  {
    hide ModuleFiles, ConfigFile;
    var added := (xs: seq<Module>) => ModuleFiles(input, xs);
    var configs := (xs: seq<Module>) => ConfigFiles(input, xs);
    forall a, b ensures added(a + b) == added(a) + added(b) { ModuleFilesAppend(input, a, b); }
    forall a, b ensures configs(a + b) == configs(a) + configs(b) {
      assert ConfigFiles(input, a + b) == ConfigFiles(input, a) + ConfigFiles(input, b);
    }
    AdditivePermuted(added, ms, ns);
    AdditivePermuted(configs, ms, ns);
    assert multiset(ModuleFiles(input, ms)) == multiset(ModuleFiles(input, ns));
    assert multiset(ConfigFiles(input, ms)) == multiset(ConfigFiles(input, ns));
  }

  lemma EmitPermuted(input: Input, ms: seq<Module>, ns: seq<Module>, order: seq<string>, manifest: map<string, string>)
    requires DistinctIds(ms) && Permuted(ms, ns)
    ensures SameOutput(Emit(input, ms, order, manifest), Emit(input, ns, order, manifest))
  {
    hide SortBy, AllFiles, RecordOf, InitHooks.HooksText, DistinctIds;
    InitHooks.HooksTextCanonical(input.template, ms, ns, order);
    RecordPermuted(input, ms, ns, order, manifest);
    var hooks, text := Hooks(input, ms, order), ManifestText.Print(manifest);
    var provenance := RecordOf(input, ms, order, manifest);
    var xs, ys := AllFiles(input, ms, hooks, text, provenance), AllFiles(input, ns, hooks, text, provenance);
    FilesPermuted(input, ms, ns, hooks, text, provenance);
    SortedFiles(xs, ys);
  }

  lemma SortedFiles(xs: seq<File>, ys: seq<File>)
    requires multiset(xs) == multiset(ys)
    ensures multiset(SortBy(xs, PathOf)) == multiset(SortBy(ys, PathOf))
    ensures MapSeq(PathOf, SortBy(xs, PathOf)) == MapSeq(PathOf, SortBy(ys, PathOf))
    ensures DistinctKeys(SortBy(xs, PathOf), PathOf) ==> SortBy(xs, PathOf) == SortBy(ys, PathOf)
  {
    hide DistinctKeys, SortBy, MapSeq;
    SortByKeeps(xs, PathOf);
    SortByKeeps(ys, PathOf);
    SortByKeys(xs, PathOf);
    SortByKeys(ys, PathOf);
    AdditivePermuted((fs: seq<File>) => MapSeq(PathOf, fs), xs, ys);
    SortCanonical(MapSeq(PathOf, xs), MapSeq(PathOf, ys));
    if DistinctKeys(SortBy(xs, PathOf), PathOf) {
      DistinctKeysPermuted(SortBy(xs, PathOf), SortBy(ys, PathOf), PathOf);
      SameMembers(xs, ys);
      SortByCanonical(xs, ys, PathOf);
    }
  }

  /**
   Two listings of the same modules build alike: they fail at the same stage, or yield the same manifest, dispatch
   file, record, initialisation order and files.
   */
  lemma BuildCanonical(input: Input, ms: seq<Module>, ns: seq<Module>)
    requires DistinctIds(ms) && Permuted(ms, ns)
    ensures match BuildOf(input, ms)
            case Failed(stage) => BuildOf(input, ns) == Failed(stage)
            case Built(p) => BuildOf(input, ns).Built? && SameOutput(p, BuildOf(input, ns).project)
  {
    hide Conflicts.Detect, InitOrder.Sorting, Wiring.Validation, MergeManifest.Merge, MergeManifest.Contributions,
      ConfigPrints, BytesPresent, Emit, SameOutput, Defaults, DistinctIds;
    PermutedMembers(ms, ns);
    ConflictsPermuted(ms, ns, input.templatePaths);
    InitOrder.SortingCanonical(ms, ns);
    WiringPermuted(input.template, ms, ns);
    MergePermuted(Defaults(input), ms, ns);
    if BuildOf(input, ms).Built? {
      EmitPermuted(input, ms, ns, InitOrder.Sorting(ms).order,
                   MergeManifest.Merge(Defaults(input), MergeManifest.Contributions(ms)).manifest);
    }
  }

  // ---------------------------------------------------------------- what is built

  /** Dots become underscores, and nothing else changes. */
  lemma {:induction false} BsIdIs(id: string)
    ensures |BsId(id)| == |id| && forall i :: 0 <= i < |id| ==> BsId(id)[i] == if id[i] == '.' then '_' else id[i]
  {
    if id != [] { BsIdIs(id[1..]); }
  }

  /** A template default wins over the entry of an asset with the same key. */
  lemma DefaultsAre(input: Input, k: string)
    ensures k in Defaults(input) <==> k in input.renderedDefaults || k in input.assetEntries
    ensures k in input.renderedDefaults ==> Defaults(input)[k] == input.renderedDefaults[k]
    ensures k !in input.renderedDefaults && k in input.assetEntries ==> Defaults(input)[k] == input.assetEntries[k]
  {
  }

  /** The configuration file of a module, with its configuration or an empty one. */
  ghost function ConfigFileOf(input: Input, m: Module): File {
    var config := if m.id in input.configs then input.configs[m.id] else BsValue.Obj(BsValue.NoFields);
    File("source/_modules/" + BsId(m.id) + "/config.bs",
         "' Auto-generated by brs-gen. Do not edit by hand.\nfunction ModuleConfig_" + BsId(m.id)
         + "() as object\n  return " + BsValue.Text(config) + "\nend function\n")
  }

  /** The file is one that a module adds, with the bytes given for its path. */
  ghost predicate FromModule(input: Input, ms: seq<Module>, f: File) {
    exists m :: m in ms && f.path in m.files && f.path in input.bytes && f.content == input.bytes[f.path]
  }

  ghost predicate FromConfig(input: Input, ms: seq<Module>, f: File) {
    exists m :: m in ms && f == ConfigFileOf(input, m)
  }

  /** The file comes from one of these sources. */
  ghost predicate Emitted(input: Input, ms: seq<Module>, p: Project, f: File) {
    || f in input.templateFiles
    || f in input.assets
    || FromModule(input, ms, f)
    || FromConfig(input, ms, f)
    || (input.templateConfig.Some? && f == File("source/_template/config.bs", input.templateConfig.value))
    || f == File("source/_modules/__init_hooks.bs", p.hooks)
    || f == File("manifest", ManifestText.Print(p.manifest))
    || f == File(".rokudev-tools/provenance.json", p.provenance)
  }

  lemma {:induction false} ModuleFilesMembers(input: Input, ms: seq<Module>)
    ensures forall f ::
              f in ModuleFiles(input, ms) <==> exists m :: m in ms && f.path in m.files && f == FileOf(input, f.path)
    decreases |ms|
  {
    if ms != [] {
      var front, last := ms[..|ms| - 1], ms[|ms| - 1];
      ModuleFilesMembers(input, front);
      FilesOfMembers(input, last.files);
      assert forall m :: m in ms <==> m in front || m == last;
    }
  }

  lemma FilesOfMembers(input: Input, paths: seq<string>)
    ensures forall f :: f in FilesOf(input, paths) <==> f.path in paths && f == FileOf(input, f.path)
  {
    forall f: File | f.path in paths && f == FileOf(input, f.path) ensures f in FilesOf(input, paths) {
      var i :| 0 <= i < |paths| && paths[i] == f.path;
      assert FilesOf(input, paths)[i] == f;
    }
  }

  lemma FromModuleIff(input: Input, ms: seq<Module>)
    requires FilesPresent(input, ms)
    ensures forall f :: f in ModuleFiles(input, ms) <==> FromModule(input, ms, f)
  {
    hide ModuleFiles;
    ModuleFilesMembers(input, ms);
  }

  lemma FromConfigIff(input: Input, ms: seq<Module>)
    ensures forall f :: f in ConfigFiles(input, ms) <==> FromConfig(input, ms, f)
  {
    hide ConfigFile, ConfigFileOf;
    forall m | m in ms ensures ConfigFile(input, m) == ConfigFileOf(input, m) { ConfigFileIs(input, m); }
    forall f: File | FromConfig(input, ms, f) ensures f in ConfigFiles(input, ms) {
      var m :| m in ms && f == ConfigFileOf(input, m);
      var i :| 0 <= i < |ms| && ms[i] == m;
      assert ConfigFiles(input, ms)[i] == f;
    }
  }

  lemma ConfigFileIs(input: Input, m: Module)
    ensures ConfigFile(input, m) == ConfigFileOf(input, m)
  {
    hide BsValue.Text, BsId;
  }

  /**
   Every file that the sources give is emitted with its content, no other is, and the files are sorted by path. The
   manifest in the project is the merge of the contributions into the defaults.
   */
  lemma BuiltFiles(input: Input, ms: seq<Module>, C: set<MergeManifest.Contribution>)
    requires BuildOf(input, ms).Built? && AreContributions(ms, C)
    ensures var p := BuildOf(input, ms).project;
            && (forall f :: f in p.files <==> Emitted(input, ms, p, f))
            && Sorted(MapSeq(PathOf, p.files))
            && MergeManifest.IsMerge(Defaults(input), C, p.manifest)
  {
    hide BuildOf, Emitted, MergeManifest.IsMerge, MergeManifest.Merge, MergeManifest.Contributions, AllFiles, RecordOf,
      Hooks, ManifestText.Print, Defaults, SortBy;
    var p, order, manifest := BuiltParts(input, ms);
    var hooks, text, provenance := Hooks(input, ms, order), ManifestText.Print(manifest),
                                   RecordOf(input, ms, order, manifest);
    var all := AllFiles(input, ms, hooks, text, provenance);
    SortByMembers(all, PathOf);
    SortByKeys(all, PathOf);
    SortSorts(MapSeq(PathOf, all));
    AllFilesAre(input, ms, p);
    ContributionsMembers(ms);
    assert ToSet(MergeManifest.Contributions(ms)) == C;
    MergeManifest.MergeSpecification(Defaults(input), MergeManifest.Contributions(ms));
  }

  /** The manifest as text and the record are among the files. */
  lemma BuiltHasManifest(input: Input, ms: seq<Module>)
    requires BuildOf(input, ms).Built?
    ensures var p := BuildOf(input, ms).project;
            && File("manifest", ManifestText.Print(p.manifest)) in p.files
            && File(".rokudev-tools/provenance.json", p.provenance) in p.files
  {
    hide BuildOf, ManifestText.Print, FromModule, FromConfig, MergeManifest.IsMerge, MergeManifest.Contributions;
    ContributionsMembers(ms);
    BuiltFiles(input, ms, ToSet(MergeManifest.Contributions(ms)));
  }

  /** How many files the modules add. */
  function Added(ms: seq<Module>): nat { if ms == [] then 0 else |ms[0].files| + Added(ms[1..]) }

  lemma {:induction false} AddedSnoc(ms: seq<Module>, m: Module)
    ensures Added(ms + [m]) == Added(ms) + |m.files|
  {
    if ms == [] {
      assert ms + [m] == [m];
    } else {
      assert (ms + [m])[1..] == ms[1..] + [m];
      AddedSnoc(ms[1..], m);
    }
  }

  lemma {:induction false} ModuleFilesCount(input: Input, ms: seq<Module>)
    ensures |ModuleFiles(input, ms)| == Added(ms)
    decreases |ms|
  {
    if ms != [] {
      var front, last := ms[..|ms| - 1], ms[|ms| - 1];
      ModuleFilesCount(input, front);
      AddedSnoc(front, last);
      assert front + [last] == ms;
    }
  }

  /** No file is emitted more often than it is given: each source adds as many files as it has. */
  lemma BuiltCount(input: Input, ms: seq<Module>)
    requires BuildOf(input, ms).Built?
    ensures |BuildOf(input, ms).project.files|
         == |input.templateFiles| + |input.assets| + Added(ms) + |ms| + (if input.templateConfig.Some? then 4 else 3)
  {
    hide BuildOf, RecordOf, Hooks, ManifestText.Print, SortBy, ModuleFiles, ConfigFiles, MergeManifest.Contributions;
    var p, order, manifest := BuiltParts(input, ms);
    ModuleFilesCount(input, ms);
    var all := AllFiles(input, ms, p.hooks, ManifestText.Print(manifest), p.provenance);
    SortByKeeps(all, PathOf);
    assert |p.files| == |multiset(p.files)| && |all| == |multiset(all)|;
  }

  lemma BuiltParts(input: Input, ms: seq<Module>)
    returns (p: Project, order: seq<string>, manifest: map<string, string>)
    requires BuildOf(input, ms).Built?
    ensures InitOrder.Sorting(ms) == InitOrder.Order(order)
    ensures MergeManifest.Merge(Defaults(input), MergeManifest.Contributions(ms)) == MergeManifest.Merged(manifest)
    ensures p == BuildOf(input, ms).project == Emit(input, ms, order, manifest)
    ensures FilesPresent(input, ms)
  {
    hide Conflicts.Detect, InitOrder.Sorting, Wiring.Validation, MergeManifest.Merge, MergeManifest.Contributions,
      ConfigPrints, Emit, Defaults;
    p := BuildOf(input, ms).project;
    order := InitOrder.Sorting(ms).order;
    manifest := MergeManifest.Merge(Defaults(input), MergeManifest.Contributions(ms)).manifest;
    assert forall m :: m in ms ==> BytesPresent(input, m);
  }

  lemma AllFilesAre(input: Input, ms: seq<Module>, p: Project)
    requires FilesPresent(input, ms)
    ensures forall f :: f in AllFiles(input, ms, p.hooks, ManifestText.Print(p.manifest), p.provenance)
                   <==> Emitted(input, ms, p, f)
  {
    hide ModuleFiles, ConfigFiles, FromModule, FromConfig, FilesPresent, ManifestText.Print;
    FromModuleIff(input, ms);
    FromConfigIff(input, ms);
  }

  // ---------------------------------------------------------------- what a built dispatch file holds

  /** Both modules are present, and one of them asks that `a` comes before `b`. */
  ghost predicate Constrained(ms: seq<Module>, a: string, b: string) {
    a in Ids(ms) && b in Ids(ms) && exists m :: m in ms && ((m.id == a && b in m.before) || (m.id == b && a in m.after))
  }

  lemma ConstraintsAreEdges(ms: seq<Module>, a: string, b: string)
    ensures Constrained(ms, a, b) <==> (a, b) in InitOrder.Edges(ms)
  {
    InitOrder.EdgesAmongMembers(ms, Ids(ms));
    InitOrder.EdgesAreWithin(ms);
  }

  /** Within the body of every hook the calls respect every constraint. */
  ghost predicate RespectsConstraints(ms: seq<Module>, calls: seq<Wiring.Call>, order: seq<string>) {
    forall a, b, key {:trigger Constrained(ms, a, b), InitHooks.Body(calls, order, key)} ::
      Constrained(ms, a, b) ==> InitHooks.NotBefore(InitHooks.Body(calls, order, key), b, a)
  }

  lemma BodiesRespectConstraints(ms: seq<Module>, calls: seq<Wiring.Call>)
    requires InitOrder.Sorting(ms).Order?
    ensures RespectsConstraints(ms, calls, InitOrder.Sorting(ms).order)
  {
    hide InitOrder.Sorting, InitOrder.IsTopological, InitHooks.Body, InitHooks.Follows, InitHooks.NotBefore,
      Constrained;
    var order := InitOrder.Sorting(ms).order;
    InitOrder.OrderIsLeast(ms);
    forall a, b, key | Constrained(ms, a, b) ensures InitHooks.NotBefore(InitHooks.Body(calls, order, key), b, a) {
      ConstraintsAreEdges(ms, a, b);
      InitHooks.BodyFollowsOrder(calls, order, key);
      InitHooks.FollowingKeepsEdge(InitHooks.Body(calls, order, key), order, Ids(ms), InitOrder.Edges(ms), a, b);
    }
  }

  lemma OrderCoversModules(ms: seq<Module>)
    requires InitOrder.Sorting(ms).Order?
    ensures Distinct(InitOrder.Sorting(ms).order)
    ensures forall id :: id in Ids(ms) <==> id in InitOrder.Sorting(ms).order
  {
    hide InitOrder.Sorting;
    InitOrder.OrderIsLeast(ms);
    var order := InitOrder.Sorting(ms).order;
    assert forall id :: id in order <==> id in ToSet(order);
  }

  lemma BuiltStages(input: Input, ms: seq<Module>)
    requires BuildOf(input, ms).Built?
    ensures InitOrder.Sorting(ms).Order? && Wiring.Validation(input.template, ms).Wired?
    ensures var p := BuildOf(input, ms).project;
            && p.initOrder == InitOrder.Sorting(ms).order && p.hooks == Hooks(input, ms, p.initOrder)
            && File("source/_modules/__init_hooks.bs", p.hooks) in p.files
  {
    hide Conflicts.Detect, InitOrder.Sorting, Wiring.Validation, MergeManifest.Merge, MergeManifest.Contributions,
      ConfigPrints, BytesPresent, Defaults, Hooks, RecordOf, SortBy, ManifestText.Print;
    var p, order := BuildOf(input, ms).project, InitOrder.Sorting(ms).order;
    var manifest := MergeManifest.Merge(Defaults(input), MergeManifest.Contributions(ms)).manifest;
    var provenance := RecordOf(input, ms, order, manifest);
    var all := AllFiles(input, ms, p.hooks, ManifestText.Print(manifest), provenance);
    assert all[|all| - 3] == File("source/_modules/__init_hooks.bs", p.hooks);
    assert p.files == SortBy(all, PathOf);
    SortByMembers(all, PathOf);
  }

  /**
   What a successful build, with distinct hook keys, puts in its dispatch file: a sub for every hook and nothing else;
   in the body of its own hook, and nowhere else, every declared call and every matched optional call once; and in every
   body, strict and optional calls each in an order that respects all constraints between modules.
   */
  lemma BuiltHooksHoldCallsInOrder(input: Input, ms: seq<Module>)
    requires BuildOf(input, ms).Built? && DistinctKeys(input.template.hooks, Wiring.HookKey)
    ensures var p, hooks := BuildOf(input, ms).project, input.template.hooks;
            var strict, matched := InitHooks.Declared(ms), Wiring.Matched(input.template, ms);
            && File("source/_modules/__init_hooks.bs", p.hooks) in p.files
            && InitHooks.HasJustItsSubs(p.hooks, hooks, p.initOrder, strict, matched)
            && InitHooks.Conserved(strict, p.initOrder, InitHooks.HookKeys(hooks))
            && InitHooks.Conserved(matched, p.initOrder, InitHooks.HookKeys(hooks))
            && RespectsConstraints(ms, strict, p.initOrder) && RespectsConstraints(ms, matched, p.initOrder)
  {
    hide BuildOf, InitOrder.Sorting, Wiring.Validation, InitHooks.HasJustItsSubs, InitHooks.Conserved,
      RespectsConstraints, InitHooks.Declared, Wiring.Matched, InitHooks.HooksText;
    BuiltStages(input, ms);
    var order := InitOrder.Sorting(ms).order;
    OrderCoversModules(ms);
    InitHooks.WiredCallsConserved(input.template, ms, order);
    InitHooks.WiredGivesMatched(input.template, ms);
    InitHooks.HooksTextHasJustItsSubs(input.template.hooks, order, InitHooks.Declared(ms),
                                      Wiring.Matched(input.template, ms));
    BodiesRespectConstraints(ms, InitHooks.Declared(ms));
    BodiesRespectConstraints(ms, Wiring.Matched(input.template, ms));
  }

  /** The text of the dispatch file, from the hooks of the template and the calls that the modules list. */
  lemma BuiltHooksText(input: Input, ms: seq<Module>)
    requires BuildOf(input, ms).Built? && DistinctIds(ms)
    ensures var p := BuildOf(input, ms).project;
            p.hooks == Text.Join(["' Auto-generated by brs-gen. Do not edit by hand.", ""]
                                 + Concat(MapSeq(h => InitHooks.SubOf(ms, p.initOrder, h), input.template.hooks)), "\n")
  {
    hide BuildOf, InitHooks.HooksText, InitHooks.SubOf, Concat, Text.Join, DistinctIds, InitOrder.Sorting;
    BuiltStages(input, ms);
    InitHooks.HooksTextIs(input.template, ms, BuildOf(input, ms).project.initOrder);
  }
}

/** The parts of templates and modules that the merger works on. */
module Catalog {
  import opened Order
  import opened Seqs

  datatype InitCall = InitCall(hook: string, statement: string)

  datatype Requirement = NeedsHook(scope: string, phase: string) | NeedsNode(name: string)

  datatype Module = Module(
    id: string, version: string, files: seq<string>, manifest: seq<(string, string)>,
    needs: seq<Requirement>, initCalls: seq<InitCall>, optionalCalls: seq<InitCall>,
    before: seq<string>, after: seq<string>, exclusiveWith: seq<string>)

  datatype Hook = Hook(scope: string, phase: string, file: string, signature: string)

  datatype Template = Template(
    id: string, version: string, hooks: seq<Hook>, sceneNodes: seq<string>, manifestDefaults: seq<(string, string)>)

  function Ids(ms: seq<Module>): set<string> { set m | m in ms :: m.id }

  ghost predicate DistinctIds(ms: seq<Module>) {
    forall i, j :: 0 <= i < j < |ms| ==> ms[i].id != ms[j].id
  }

  /** The same modules in another order. */
  ghost predicate Permuted(ms: seq<Module>, ns: seq<Module>) { multiset(ms) == multiset(ns) }

  lemma PermutedMembers(ms: seq<Module>, ns: seq<Module>)
    requires Permuted(ms, ns)
    ensures forall m :: m in ms <==> m in ns
    ensures |ms| == |ns| && Ids(ms) == Ids(ns)
  {
    assert forall m :: m in ms <==> m in multiset(ms);
    assert forall m :: m in ns <==> m in multiset(ns);
    assert |ms| == |multiset(ms)| && |ns| == |multiset(ns)|;
  }

  function IdOf(m: Module): string { m.id }

  lemma PermutedDistinct(ms: seq<Module>, ns: seq<Module>)
    requires Permuted(ms, ns) && DistinctIds(ms)
    ensures DistinctIds(ns)
  {
    assert DistinctKeys(ms, IdOf);
    DistinctKeysPermuted(ms, ns, IdOf);
    assert forall i, j :: 0 <= i < j < |ns| ==> IdOf(ns[i]) != IdOf(ns[j]);
  }
}

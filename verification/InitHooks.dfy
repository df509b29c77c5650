/**
 The dispatch file: one sub per template hook, whose body holds the calls of all modules to that hook, strict calls
 before optional ones and each group in initialisation order.
 */
module InitHooks {
  import opened Catalog
  import opened InitOrder
  import opened Text
  import opened Seqs
  import opened SubNames
  import opened Wiring
  import opened Order

  // ---------------------------------------------------------------- selecting calls

  function ModuleOf(c: Call): string { c.moduleId }

  function HookOf(c: Call): string { c.hook }

  function OfModule(calls: seq<Call>, id: string): seq<Call> { Select(calls, ModuleOf, id) }

  function OfHook(calls: seq<Call>, key: string): seq<Call> { Select(calls, HookOf, key) }

  /** The calls module by module, in the given order of modules. */
  function Arranged(calls: seq<Call>, order: seq<string>): seq<Call> {
    if order == [] then [] else OfModule(calls, order[0]) + Arranged(calls, order[1..])
  }

  /** The calls that stand in the body of a hook. */
  function Body(calls: seq<Call>, order: seq<string>, key: string): seq<Call> { OfHook(Arranged(calls, order), key) }

  function CallsOf(id: string, calls: seq<InitCall>): seq<Call> {
    seq(|calls|, i requires 0 <= i < |calls| => Call(id, calls[i].hook, calls[i].statement))
  }

  /** The strict calls that a module declares. */
  function DeclaredBy(m: Module): seq<Call> { CallsOf(m.id, m.initCalls) }

  function Declared(ms: seq<Module>): seq<Call> {
    if ms == [] then [] else Declared(ms[..|ms| - 1]) + DeclaredBy(ms[|ms| - 1])
  }

  function Statements(calls: seq<Call>): seq<string> {
    seq(|calls|, i requires 0 <= i < |calls| => "  " + calls[i].statement)
  }

  function HookLines(h: Hook, order: seq<string>, strict: seq<Call>, optional: seq<Call>): seq<string> {
    ["sub " + DispatchName(h) + h.signature]
    + Statements(Body(strict, order, HookKey(h)))
    + Statements(Body(optional, order, HookKey(h)))
    + ["end sub", ""]
  }

  function AllLines(hooks: seq<Hook>, order: seq<string>, strict: seq<Call>, optional: seq<Call>): seq<string> {
    if hooks == [] then ["' Auto-generated by brs-gen. Do not edit by hand.", ""]
    else
      AllLines(hooks[..|hooks| - 1], order, strict, optional) + HookLines(hooks[|hooks| - 1], order, strict, optional)
  }

  function HooksText(hooks: seq<Hook>, order: seq<string>, strict: seq<Call>, optional: seq<Call>): string {
    Join(AllLines(hooks, order, strict, optional), "\n")
  }

  /** The lines from `at` on are the sub of a hook: its header, all strict calls, all optional calls, its end. */
  ghost predicate IsSection(lines: seq<string>, at: nat, header: string, strict: seq<string>, optional: seq<string>) {
    && at + |strict| + |optional| + 2 <= |lines|
    && lines[at] == header
    && lines[at + 1..at + 1 + |strict|] == strict
    && lines[at + 1 + |strict|..at + 1 + |strict| + |optional|] == optional
    && lines[at + 1 + |strict| + |optional|] == "end sub"
  }

  /** Every hook has its sub in the dispatch file, in which strict calls come before optional ones. */
  lemma {:induction false} EveryHookHasItsSub(hooks: seq<Hook>, i: nat, order: seq<string>, strict: seq<Call>,
                                              optional: seq<Call>) returns (at: nat)
    requires i < |hooks|
    ensures var h := hooks[i];
            IsSection(AllLines(hooks, order, strict, optional), at, "sub " + DispatchName(h) + h.signature,
                      Statements(Body(strict, order, HookKey(h))), Statements(Body(optional, order, HookKey(h))))
    decreases |hooks|
  {
    hide Body, Statements, DispatchName, IsSection, HookLines;
    var front, h := hooks[..|hooks| - 1], hooks[|hooks| - 1];
    var before := AllLines(front, order, strict, optional);
    if i < |front| {
      at := EveryHookHasItsSub(front, i, order, strict, optional);
      var g := hooks[i];
      SectionStays(before, HookLines(h, order, strict, optional), at, "sub " + DispatchName(g) + g.signature,
                   Statements(Body(strict, order, HookKey(g))), Statements(Body(optional, order, HookKey(g))));
    } else {
      at := |before|;
      NewSection(before, h, order, strict, optional);
    }
  }

  lemma SectionStays(lines: seq<string>, more: seq<string>, at: nat, header: string, strict: seq<string>,
                     optional: seq<string>)
    requires IsSection(lines, at, header, strict, optional)
    ensures IsSection(lines + more, at, header, strict, optional)
  {
  }

  lemma NewSection(before: seq<string>, h: Hook, order: seq<string>, strict: seq<Call>, optional: seq<Call>)
    ensures IsSection(before + HookLines(h, order, strict, optional), |before|, "sub " + DispatchName(h) + h.signature,
                      Statements(Body(strict, order, HookKey(h))), Statements(Body(optional, order, HookKey(h))))
  {
    hide Body, Statements, DispatchName;
  }

  /** The lines are one whole sub: its header, all strict calls, all optional calls, its end and an empty line. */
  ghost predicate IsSub(lines: seq<string>, h: Hook, strict: seq<string>, optional: seq<string>) {
    lines == ["sub " + DispatchName(h) + h.signature] + strict + optional + ["end sub", ""]
  }

  /** The text is the two lines at its top and then one sub for each hook, in the order of hooks, and nothing else. */
  ghost predicate HasJustItsSubs(
    text: string, hooks: seq<Hook>, order: seq<string>, strict: seq<Call>, optional: seq<Call>)
  {
    exists subs: seq<seq<string>> ::
      && |subs| == |hooks|
      && text == Join(["' Auto-generated by brs-gen. Do not edit by hand.", ""] + Concat(subs), "\n")
      && forall i :: 0 <= i < |hooks| ==>
           IsSub(subs[i], hooks[i], Statements(Body(strict, order, HookKey(hooks[i]))),
                 Statements(Body(optional, order, HookKey(hooks[i]))))
  }

  lemma {:induction false} LinesAreSubs(hooks: seq<Hook>, order: seq<string>, strict: seq<Call>, optional: seq<Call>)
    returns (subs: seq<seq<string>>)
    ensures |subs| == |hooks|
    ensures AllLines(hooks, order, strict, optional)
         == ["' Auto-generated by brs-gen. Do not edit by hand.", ""] + Concat(subs)
    ensures forall i :: 0 <= i < |hooks| ==> subs[i] == HookLines(hooks[i], order, strict, optional)
    decreases |hooks|
  {
    hide HookLines;
    if hooks == [] {
      subs := [];
      assert Concat(subs) == [];
    } else {
      var front, last := hooks[..|hooks| - 1], hooks[|hooks| - 1];
      var before := LinesAreSubs(front, order, strict, optional);
      var lines := HookLines(last, order, strict, optional);
      subs := before + [lines];
      ConcatSnoc(before, lines);
      assert ["' Auto-generated by brs-gen. Do not edit by hand.", ""] + (Concat(before) + lines)
          == (["' Auto-generated by brs-gen. Do not edit by hand.", ""] + Concat(before)) + lines;
    }
  }

  lemma HooksTextHasJustItsSubs(hooks: seq<Hook>, order: seq<string>, strict: seq<Call>, optional: seq<Call>)
    ensures HasJustItsSubs(HooksText(hooks, order, strict, optional), hooks, order, strict, optional)
  {
    hide Body, Statements, DispatchName, AllLines, Join, Concat;
    var subs := LinesAreSubs(hooks, order, strict, optional);
    assert forall i :: 0 <= i < |hooks| ==>
      IsSub(subs[i], hooks[i], Statements(Body(strict, order, HookKey(hooks[i]))),
            Statements(Body(optional, order, HookKey(hooks[i]))));
  }

  // ---------------------------------------------------------------- nothing is lost or invented

  lemma {:induction false} SelectAppend<T>(xs: seq<T>, ys: seq<T>, key: T -> string, k: string)
    ensures Select(xs + ys, key, k) == Select(xs, key, k) + Select(ys, key, k)
  {
    hide Select;
    if xs == [] {
      assert xs + ys == ys;
      SelectNothing(key, k);
    } else {
      assert xs + ys == [xs[0]] + (xs[1..] + ys) && xs == [xs[0]] + xs[1..];
      SelectAppend(xs[1..], ys, key, k);
      SelectCons(xs[0], xs[1..] + ys, key, k);
      SelectCons(xs[0], xs[1..], key, k);
    }
  }

  lemma {:induction false} SelectMembers<T>(xs: seq<T>, key: T -> string, k: string)
    ensures forall x :: x in Select(xs, key, k) <==> x in xs && key(x) == k
  {
    if xs != [] {
      SelectMembers(xs[1..], key, k);
      assert forall x :: x in xs <==> x == xs[0] || x in xs[1..];
    }
  }

  /** Each element once: the parts selected by distinct values of a key that covers all elements. */
  function Parts<T>(xs: seq<T>, key: T -> string, ks: seq<string>): seq<T> {
    if ks == [] then [] else Select(xs, key, ks[0]) + Parts(xs, key, ks[1..])
  }

  lemma {:induction false} PartsOfAppend<T>(xs: seq<T>, ys: seq<T>, key: T -> string, ks: seq<string>)
    ensures multiset(Parts(xs + ys, key, ks)) == multiset(Parts(xs, key, ks)) + multiset(Parts(ys, key, ks))
    decreases |ks|
  {
    if ks != [] {
      SelectAppend(xs, ys, key, ks[0]);
      PartsOfAppend(xs, ys, key, ks[1..]);
    }
  }

  lemma {:induction false} PartsOfOne<T>(x: T, key: T -> string, ks: seq<string>)
    requires Distinct(ks)
    ensures Parts([x], key, ks) == if key(x) in ks then [x] else []
    decreases |ks|
  {
    if ks != [] {
      assert Select([x], key, ks[0]) == if key(x) == ks[0] then [x] else [] by { assert [x][1..] == []; }
      assert forall i :: 0 <= i < |ks| - 1 ==> ks[1..][i] == ks[i + 1];
      PartsOfOne(x, key, ks[1..]);
      assert forall k :: k in ks <==> k == ks[0] || k in ks[1..];
    }
  }

  lemma {:induction false} PartsAreAll<T>(xs: seq<T>, key: T -> string, ks: seq<string>)
    requires Distinct(ks) && forall x :: x in xs ==> key(x) in ks
    ensures multiset(Parts(xs, key, ks)) == multiset(xs)
    decreases |xs|
  {
    if xs == [] {
      PartsOfNone(key, ks);
    } else {
      assert xs == [xs[0]] + xs[1..];
      PartsOfAppend([xs[0]], xs[1..], key, ks);
      PartsOfOne(xs[0], key, ks);
      PartsAreAll(xs[1..], key, ks);
    }
  }

  lemma {:induction false} PartsOfNone<T>(key: T -> string, ks: seq<string>)
    ensures Parts<T>([], key, ks) == []
    decreases |ks|
  {
    if ks != [] { PartsOfNone(key, ks[1..]); }
  }

  lemma {:induction false} ArrangedIsParts(calls: seq<Call>, order: seq<string>)
    ensures Arranged(calls, order) == Parts(calls, ModuleOf, order)
    decreases |order|
  {
    if order != [] {
      ArrangedIsParts(calls, order[1..]);
    }
  }

  /** The bodies of all hooks, one after the other. */
  function Bodies(calls: seq<Call>, order: seq<string>, keys: seq<string>): seq<Call> {
    if keys == [] then [] else Body(calls, order, keys[0]) + Bodies(calls, order, keys[1..])
  }

  lemma {:induction false} BodiesAreParts(calls: seq<Call>, order: seq<string>, keys: seq<string>)
    ensures Bodies(calls, order, keys) == Parts(Arranged(calls, order), HookOf, keys)
    decreases |keys|
  {
    if keys != [] {
      BodiesAreParts(calls, order, keys[1..]);
    }
  }

  /** Every call appears exactly once in the bodies taken together, and a body holds just the calls of its hook. */
  ghost predicate Conserved(calls: seq<Call>, order: seq<string>, keys: seq<string>) {
    && multiset(Bodies(calls, order, keys)) == multiset(calls)
    && forall key, c :: c in Body(calls, order, key) <==> c in calls && c.hook == key
  }

  /** Emission conserves calls if the order arranges their modules and the keys cover their hooks, each once. */
  lemma EmissionConserves(calls: seq<Call>, order: seq<string>, keys: seq<string>)
    requires Distinct(order) && Distinct(keys)
    requires forall c :: c in calls ==> c.moduleId in order && c.hook in keys
    ensures Conserved(calls, order, keys)
  {
    hide Distinct;
    var arranged := Arranged(calls, order);
    ArrangedIsParts(calls, order);
    PartsAreAll(calls, ModuleOf, order);
    SameMembers(arranged, calls);
    BodiesAreParts(calls, order, keys);
    PartsAreAll(arranged, HookOf, keys);
    forall key ensures forall c :: c in Body(calls, order, key) <==> c in calls && c.hook == key {
      SelectMembers(arranged, HookOf, key);
    }
  }

  function HookKeys(hooks: seq<Hook>): seq<string> { MapSeq(HookKey, hooks) }

  lemma KeysAreExported(t: Template)
    ensures forall key :: key in HookKeys(t.hooks) <==> key in ExportedHooks(t)
  {
    forall key | key in ExportedHooks(t) ensures key in HookKeys(t.hooks) {
      var h :| h in t.hooks && HookKey(h) == key;
      var i :| 0 <= i < |t.hooks| && t.hooks[i] == h;
      assert HookKeys(t.hooks)[i] == key;
    }
  }

  lemma {:induction false} DeclaredMembers(ms: seq<Module>)
    ensures forall x :: x in Declared(ms) <==> exists m :: m in ms && x in DeclaredBy(m)
    decreases |ms|
  {
    if ms != [] {
      DeclaredMembers(ms[..|ms| - 1]);
      assert forall m :: m in ms <==> m in ms[..|ms| - 1] || m == ms[|ms| - 1];
    }
  }

  lemma {:induction false} MatchedMembers(t: Template, ms: seq<Module>)
    ensures forall x :: x in Matched(t, ms) <==> exists m :: m in ms && x in MatchedOf(t, m)
    decreases |ms|
  {
    if ms != [] {
      MatchedMembers(t, ms[..|ms| - 1]);
      assert forall m :: m in ms <==> m in ms[..|ms| - 1] || m == ms[|ms| - 1];
    }
  }

  lemma DeclaredCovered(t: Template, ms: seq<Module>)
    requires Validation(t, ms).Wired?
    ensures forall c :: c in Declared(ms) ==> c.moduleId in Ids(ms) && c.hook in HookKeys(t.hooks)
  {
    hide Validation;
    WiredIff(t, ms);
    KeysAreExported(t);
    DeclaredMembers(ms);
    forall c | c in Declared(ms) ensures c.moduleId in Ids(ms) && c.hook in HookKeys(t.hooks) {
      var m :| m in ms && c in DeclaredBy(m);
      assert m.id in Ids(ms) && ModuleWired(t, m);
      var i :| 0 <= i < |DeclaredBy(m)| && DeclaredBy(m)[i] == c;
      assert m.initCalls[i] in m.initCalls;
      ExportedIff(t, c.hook);
    }
  }

  lemma MatchedCovered(t: Template, ms: seq<Module>)
    ensures forall c :: c in Matched(t, ms) ==> c.moduleId in Ids(ms) && c.hook in HookKeys(t.hooks)
  {
    KeysAreExported(t);
    MatchedMembers(t, ms);
    forall c | c in Matched(t, ms) ensures c.moduleId in Ids(ms) && c.hook in HookKeys(t.hooks) {
      var m :| m in ms && c in MatchedOf(t, m);
      assert m.id in Ids(ms);
      MatchedInExactly(t, m.id, m.optionalCalls);
      ExportedIff(t, c.hook);
    }
  }

  lemma WiredGivesMatched(t: Template, ms: seq<Module>)
    requires Validation(t, ms).Wired?
    ensures Validation(t, ms).matched == Matched(t, ms)
  {
  }

  /**
   Once wiring has succeeded, and with distinct hook keys, every init call of every module and every matched optional
   call is emitted exactly once, in the body of its own hook, and nothing else is emitted.
   */
  lemma WiredCallsConserved(t: Template, ms: seq<Module>, order: seq<string>)
    requires Validation(t, ms).Wired?
    requires Distinct(HookKeys(t.hooks)) && Distinct(order) && forall id :: id in Ids(ms) ==> id in order
    ensures Conserved(Declared(ms), order, HookKeys(t.hooks))
    ensures Conserved(Validation(t, ms).matched, order, HookKeys(t.hooks))
  {
    hide Validation, Distinct, Conserved, Declared, Matched;
    DeclaredCovered(t, ms);
    MatchedCovered(t, ms);
    EmissionConserves(Declared(ms), order, HookKeys(t.hooks));
    EmissionConserves(Matched(t, ms), order, HookKeys(t.hooks));
    WiredGivesMatched(t, ms);
  }

  /** `x` comes before `y` in the order, or is the same. */
  ghost predicate NotAfter(order: seq<string>, x: string, y: string) {
    exists i, j :: 0 <= i <= j < |order| && order[i] == x && order[j] == y
  }

  /** The calls come in the order of their modules. */
  ghost predicate Follows(calls: seq<Call>, order: seq<string>) {
    forall a, b :: 0 <= a < b < |calls| ==> NotAfter(order, calls[a].moduleId, calls[b].moduleId)
  }

  lemma {:induction false} ArrangedFollows(calls: seq<Call>, order: seq<string>)
    ensures Follows(Arranged(calls, order), order)
    decreases |order|
  {
    if order != [] {
      var first, rest := OfModule(calls, order[0]), Arranged(calls, order[1..]);
      ArrangedFollows(calls, order[1..]);
      ArrangedModules(calls, order[1..]);
      SelectMembers(calls, ModuleOf, order[0]);
      var all: seq<Call> := first + rest;
      forall a, b | 0 <= a < b < |all| ensures NotAfter(order, all[a].moduleId, all[b].moduleId)
      {
        if b < |first| {
          assert first[a] in first && first[b] in first && order[0] == order[0];
        } else if a < |first| {
          assert first[a] in first && rest[b - |first|] in rest;
          var j :| 0 <= j < |order[1..]| && order[1..][j] == rest[b - |first|].moduleId;
          assert order[0] == first[a].moduleId && order[j + 1] == rest[b - |first|].moduleId;
        } else {
          assert NotAfter(order[1..], rest[a - |first|].moduleId, rest[b - |first|].moduleId);
          var i, j :| 0 <= i <= j < |order[1..]|
            && order[1..][i] == rest[a - |first|].moduleId && order[1..][j] == rest[b - |first|].moduleId;
          assert order[i + 1] == rest[a - |first|].moduleId && order[j + 1] == rest[b - |first|].moduleId;
        }
      }
    }
  }

  lemma {:induction false} SelectFollows(calls: seq<Call>, order: seq<string>, key: string)
    requires Follows(calls, order)
    ensures Follows(OfHook(calls, key), order)
    decreases |calls|
  {
    if calls != [] {
      var rest := OfHook(calls[1..], key);
      SelectFollows(calls[1..], order, key);
      SelectMembers(calls[1..], HookOf, key);
      forall b | 0 <= b < |rest| ensures NotAfter(order, calls[0].moduleId, rest[b].moduleId) {
        assert rest[b] in calls[1..];
      }
    }
  }

  /** Each group of calls in a body follows the initialisation order of the modules. */
  lemma BodyFollowsOrder(calls: seq<Call>, order: seq<string>, key: string)
    ensures Follows(Body(calls, order, key), order)
  {
    ArrangedFollows(calls, order);
    SelectFollows(Arranged(calls, order), order, key);
  }

  /** No call of `b` comes before one of `a`. */
  ghost predicate NotBefore(calls: seq<Call>, b: string, a: string) {
    forall x, y :: 0 <= x < y < |calls| ==> !(calls[x].moduleId == b && calls[y].moduleId == a)
  }

  /** Calls in an order that is topological respect every edge. */
  lemma FollowingKeepsEdge(calls: seq<Call>, order: seq<string>, nodes: set<string>, E: set<(string, string)>,
                           a: string, b: string)
    requires Follows(calls, order) && IsTopological(order, nodes, E) && (a, b) in E
    ensures NotBefore(calls, b, a)
  {
    forall x, y | 0 <= x < y < |calls| ensures (calls[y].moduleId, calls[x].moduleId) !in E {
      assert NotAfter(order, calls[x].moduleId, calls[y].moduleId);
      var i, j :| 0 <= i <= j < |order| && order[i] == calls[x].moduleId && order[j] == calls[y].moduleId;
      assert (order[j], order[i]) !in E;
    }
  }

  lemma {:induction false} ArrangedModules(calls: seq<Call>, order: seq<string>)
    ensures forall c :: c in Arranged(calls, order) ==> c.moduleId in order
    decreases |order|
  {
    if order != [] {
      ArrangedModules(calls, order[1..]);
      SelectMembers(calls, ModuleOf, order[0]);
    }
  }

  // ---------------------------------------------------------------- calls grouped by module

  /** The calls of all modules, one module after the other. */
  function PerModule(ms: seq<Module>, f: Module -> seq<Call>): seq<Call> {
    if ms == [] then [] else PerModule(ms[..|ms| - 1], f) + f(ms[|ms| - 1])
  }

  ghost predicate Owned(f: Module -> seq<Call>, ms: seq<Module>) {
    forall m, c :: m in ms && c in f(m) ==> c.moduleId == m.id
  }

  lemma {:induction false} SelectNone<T>(xs: seq<T>, key: T -> string, k: string)
    requires forall x :: x in xs ==> key(x) != k
    ensures Select(xs, key, k) == []
  {
    if xs != [] { SelectNone(xs[1..], key, k); }
  }

  lemma {:induction false} SelectEvery<T>(xs: seq<T>, key: T -> string, k: string)
    requires forall x :: x in xs ==> key(x) == k
    ensures Select(xs, key, k) == xs
  {
    if xs != [] { SelectEvery(xs[1..], key, k); }
  }

  /** The calls of one module, picked from those of all, are the ones it made. */
  lemma {:induction false} OfModulePerModule(ms: seq<Module>, f: Module -> seq<Call>, id: string)
    requires DistinctIds(ms) && Owned(f, ms)
    ensures forall m :: m in ms && m.id == id ==> OfModule(PerModule(ms, f), id) == f(m)
    ensures id !in Ids(ms) ==> OfModule(PerModule(ms, f), id) == []
    decreases |ms|
  {
    if ms != [] {
      var front, last := ms[..|ms| - 1], ms[|ms| - 1];
      assert forall m :: m in ms <==> m in front || m == last;
      OfModulePerModule(front, f, id);
      SelectAppend(PerModule(front, f), f(last), ModuleOf, id);
      if last.id == id {
        SelectEvery(f(last), ModuleOf, id);
        assert forall m :: m in front ==> m.id != id;
        assert id !in Ids(front);
      } else {
        SelectNone(f(last), ModuleOf, id);
      }
    }
  }

  /** What is emitted does not depend on the order in which the modules are listed. */
  lemma {:induction false} ArrangedPermuted(
    ms: seq<Module>, ns: seq<Module>, f: Module -> seq<Call>, order: seq<string>)
    requires DistinctIds(ms) && DistinctIds(ns) && Permuted(ms, ns) && Owned(f, ms)
    ensures Arranged(PerModule(ms, f), order) == Arranged(PerModule(ns, f), order)
    decreases |order|
  {
    if order != [] {
      ArrangedPermuted(ms, ns, f, order[1..]);
      PermutedMembers(ms, ns);
      assert Owned(f, ns);
      OfModulePerModule(ms, f, order[0]);
      OfModulePerModule(ns, f, order[0]);
      if order[0] in Ids(ms) {
        var m :| m in ms && m.id == order[0];
      }
    }
  }

  lemma {:induction false} DeclaredPerModule(ms: seq<Module>)
    ensures Declared(ms) == PerModule(ms, DeclaredBy) && Owned(DeclaredBy, ms)
    decreases |ms|
  {
    if ms != [] { DeclaredPerModule(ms[..|ms| - 1]); }
  }

  lemma {:induction false} MatchedPerModule(t: Template, ms: seq<Module>)
    ensures Matched(t, ms) == PerModule(ms, m => MatchedOf(t, m)) && Owned(m => MatchedOf(t, m), ms)
    decreases |ms|
  {
    forall m, c | m in ms && c in MatchedOf(t, m) ensures c.moduleId == m.id {
      MatchedInExactly(t, m.id, m.optionalCalls);
    }
    MatchedIsPerModule(t, ms);
  }

  lemma {:induction false} MatchedIsPerModule(t: Template, ms: seq<Module>)
    ensures Matched(t, ms) == PerModule(ms, m => MatchedOf(t, m))
    decreases |ms|
  {
    if ms != [] { MatchedIsPerModule(t, ms[..|ms| - 1]); }
  }

  lemma {:induction false} HooksTextSame(hooks: seq<Hook>, order: seq<string>,
                                         s: seq<Call>, s': seq<Call>, o: seq<Call>, o': seq<Call>)
    requires Arranged(s, order) == Arranged(s', order) && Arranged(o, order) == Arranged(o', order)
    ensures AllLines(hooks, order, s, o) == AllLines(hooks, order, s', o')
    decreases |hooks|
  {
    if hooks != [] { HooksTextSame(hooks[..|hooks| - 1], order, s, s', o, o'); }
  }

  /** The text of the dispatch file is the same for every listing of the same modules. */
  lemma HooksTextCanonical(t: Template, ms: seq<Module>, ns: seq<Module>, order: seq<string>)
    requires DistinctIds(ms) && Permuted(ms, ns)
    ensures HooksText(t.hooks, order, Declared(ms), Matched(t, ms))
         == HooksText(t.hooks, order, Declared(ns), Matched(t, ns))
  {
    PermutedDistinct(ms, ns);
    DeclaredPerModule(ms);
    DeclaredPerModule(ns);
    MatchedPerModule(t, ms);
    MatchedPerModule(t, ns);
    ArrangedPermuted(ms, ns, DeclaredBy, order);
    ArrangedPermuted(ms, ns, m => MatchedOf(t, m), order);
    HooksTextSame(t.hooks, order, Declared(ms), Declared(ns), Matched(t, ms), Matched(t, ns));
  }

  // ---------------------------------------------------------------- the text, from the modules themselves

  /** The statements of those calls that go to a hook, in the order in which the module lists them. */
  function StatementsTo(calls: seq<InitCall>, key: string): seq<string> {
    if calls == [] then []
    else (if calls[0].hook == key then ["  " + calls[0].statement] else []) + StatementsTo(calls[1..], key)
  }

  function CallsIn(m: Module, optional: bool): seq<InitCall> { if optional then m.optionalCalls else m.initCalls }

  /** The strict, or the optional, statements of the module with an id to a hook. */
  function StatementsBy(ms: seq<Module>, optional: bool, id: string, key: string): seq<string> {
    if ms == [] then []
    else if ms[0].id == id then StatementsTo(CallsIn(ms[0], optional), key)
    else StatementsBy(ms[1..], optional, id, key)
  }

  /** Those of all modules, in initialisation order. */
  function StatementsIn(ms: seq<Module>, optional: bool, order: seq<string>, key: string): seq<string> {
    if order == [] then []
    else StatementsBy(ms, optional, order[0], key) + StatementsIn(ms, optional, order[1..], key)
  }

  /** A sub as it should be: header, the modules' strict statements, their optional ones, end. */
  function SubOf(ms: seq<Module>, order: seq<string>, h: Hook): seq<string> {
    var key := h.scope + "." + h.phase;
    ["sub " + DispatchName(h) + h.signature] + StatementsIn(ms, false, order, key) + StatementsIn(ms, true, order, key)
    + ["end sub", ""]
  }

  lemma {:induction false} StatementsByMember(ms: seq<Module>, optional: bool, m: Module, key: string)
    requires DistinctIds(ms) && m in ms
    ensures StatementsBy(ms, optional, m.id, key) == StatementsTo(CallsIn(m, optional), key)
  {
    if ms[0] != m {
      var i :| 0 <= i < |ms| && ms[i] == m;
      assert ms[0].id != ms[i].id;
      assert forall k :: 0 <= k < |ms| - 1 ==> ms[1..][k] == ms[k + 1];
      assert m == ms[1..][i - 1];
      StatementsByMember(ms[1..], optional, m, key);
    }
  }

  lemma {:induction false} StatementsByNobody(ms: seq<Module>, optional: bool, id: string, key: string)
    requires id !in Ids(ms)
    ensures StatementsBy(ms, optional, id, key) == []
  {
    if ms != [] {
      assert ms[0] in ms;
      assert forall m :: m in ms[1..] ==> m in ms;
      StatementsByNobody(ms[1..], optional, id, key);
    }
  }

  lemma {:induction false} StatementsOfCalls(id: string, calls: seq<InitCall>, key: string)
    ensures Statements(OfHook(CallsOf(id, calls), key)) == StatementsTo(calls, key)
  {
    if calls == [] {
      assert CallsOf(id, calls) == [];
    } else {
      var all := CallsOf(id, calls);
      assert all[1..] == CallsOf(id, calls[1..]);
      StatementsOfCalls(id, calls[1..], key);
      StatementsAppend(if all[0].hook == key then [all[0]] else [], OfHook(all[1..], key));
    }
  }

  lemma StatementsAppend(a: seq<Call>, b: seq<Call>)
    ensures Statements(a + b) == Statements(a) + Statements(b)
  {
  }

  /** If the calls picked from a module are those of a list, for each hook, the body is made of these lists. */
  lemma {:induction false} BodyIs(
    ms: seq<Module>, optional: bool, f: Module -> seq<Call>, order: seq<string>, key: string)
    requires DistinctIds(ms) && Owned(f, ms)
    requires forall m :: m in ms ==> Statements(OfHook(f(m), key)) == StatementsTo(CallsIn(m, optional), key)
    ensures Statements(Body(PerModule(ms, f), order, key)) == StatementsIn(ms, optional, order, key)
    decreases |order|
  {
    hide Select, PerModule, StatementsTo, Owned, DistinctIds;
    if order == [] {
      NothingArranged(PerModule(ms, f), key);
    } else {
      var id, calls := order[0], PerModule(ms, f);
      BodyIs(ms, optional, f, order[1..], key);
      OfModulePerModule(ms, f, id);
      SelectAppend(OfModule(calls, id), Arranged(calls, order[1..]), HookOf, key);
      StatementsAppend(OfHook(OfModule(calls, id), key), Body(calls, order[1..], key));
      if id in Ids(ms) {
        var m :| m in ms && m.id == id;
        StatementsByMember(ms, optional, m, key);
      } else {
        SelectNothing(HookOf, key);
        StatementsByNobody(ms, optional, id, key);
      }
    }
  }

  lemma StrictBodyIs(ms: seq<Module>, order: seq<string>, key: string)
    requires DistinctIds(ms)
    ensures Statements(Body(Declared(ms), order, key)) == StatementsIn(ms, false, order, key)
  {
    DeclaredPerModule(ms);
    forall m | m in ms ensures Statements(OfHook(DeclaredBy(m), key)) == StatementsTo(m.initCalls, key) {
      StatementsOfCalls(m.id, m.initCalls, key);
    }
    BodyIs(ms, false, DeclaredBy, order, key);
  }

  /** To a hook that the template has, every optional call is a matched one. */
  lemma {:induction false} MatchedToHook(t: Template, id: string, calls: seq<InitCall>, key: string)
    requires Exports(t, key)
    ensures OfHook(MatchedIn(t, id, calls), key) == OfHook(CallsOf(id, calls), key)
    decreases |calls|
  {
    hide Exports, ExportedHooks;
    if calls == [] {
      assert CallsOf(id, calls) == [];
    } else {
      var front, last := calls[..|calls| - 1], calls[|calls| - 1];
      MatchedToHook(t, id, front, key);
      var c := Call(id, last.hook, last.statement);
      assert CallsOf(id, calls) == CallsOf(id, front) + [c];
      var own := if last.hook in ExportedHooks(t) then [c] else [];
      SelectAppend(MatchedIn(t, id, front), own, HookOf, key);
      SelectAppend(CallsOf(id, front), [c], HookOf, key);
      ExportedIff(t, key);
      OneSelected(c, HookOf, key);
      SelectNothing<Call>(HookOf, key);
    }
  }

  lemma OneSelected<T>(x: T, key: T -> string, k: string)
    ensures Select([x], key, k) == if key(x) == k then [x] else []
  {
    assert [x][1..] == [];
  }

  lemma OptionalBodyIs(t: Template, ms: seq<Module>, order: seq<string>, key: string)
    requires DistinctIds(ms) && Exports(t, key)
    ensures Statements(Body(Matched(t, ms), order, key)) == StatementsIn(ms, true, order, key)
  {
    hide Exports, MatchedIn;
    MatchedPerModule(t, ms);
    var f := m => MatchedOf(t, m);
    forall m | m in ms ensures Statements(OfHook(f(m), key)) == StatementsTo(m.optionalCalls, key) {
      MatchedToHook(t, m.id, m.optionalCalls, key);
      StatementsOfCalls(m.id, m.optionalCalls, key);
    }
    BodyIs(ms, true, f, order, key);
  }

  lemma SubIs(t: Template, ms: seq<Module>, order: seq<string>, h: Hook)
    requires DistinctIds(ms) && h in t.hooks
    ensures HookLines(h, order, Declared(ms), Matched(t, ms)) == SubOf(ms, order, h)
  {
    hide Body, StatementsIn, DispatchName, Statements;
    var key := h.scope + "." + h.phase;
    assert Exports(t, key) && HookKey(h) == key;
    StrictBodyIs(ms, order, key);
    OptionalBodyIs(t, ms, order, key);
  }

  /** The whole text, from the hooks of the template and the calls that the modules list. */
  lemma HooksTextIs(t: Template, ms: seq<Module>, order: seq<string>)
    requires DistinctIds(ms)
    ensures HooksText(t.hooks, order, Declared(ms), Matched(t, ms))
         == Join(["' Auto-generated by brs-gen. Do not edit by hand.", ""]
                 + Concat(MapSeq(h => SubOf(ms, order, h), t.hooks)), "\n")
  {
    hide AllLines, HookLines, SubOf, Concat, Join;
    var subs := LinesAreSubs(t.hooks, order, Declared(ms), Matched(t, ms));
    forall i | 0 <= i < |t.hooks| ensures subs[i] == SubOf(ms, order, t.hooks[i]) {
      SubIs(t, ms, order, t.hooks[i]);
    }
    assert subs == MapSeq(h => SubOf(ms, order, h), t.hooks);
  }

  // ---------------------------------------------------------------- emission as it runs

  /** The table holds, under each module's id, the strict calls of that module. */
  ghost predicate Groups(callsByModule: map<string, seq<InitCall>>, strict: seq<Call>) {
    forall id :: OfModule(strict, id) == if id in callsByModule then CallsOf(id, callsByModule[id]) else []
  }

  method GroupCalls(ms: seq<Module>) returns (callsByModule: map<string, seq<InitCall>>)
    requires DistinctIds(ms)
    ensures Groups(callsByModule, Declared(ms))
  {
    callsByModule := map[];
    var i := 0;
    while i < |ms|
      invariant 0 <= i <= |ms|
      invariant callsByModule.Keys == Ids(ms[..i])
      invariant forall k :: 0 <= k < i ==> ms[k].id in callsByModule && callsByModule[ms[k].id] == ms[k].initCalls
    {
      assert forall m :: m in ms[..i + 1] <==> m in ms[..i] || m == ms[i];
      callsByModule := callsByModule[ms[i].id := ms[i].initCalls];
      i := i + 1;
    }
    assert ms[..i] == ms;
    DeclaredPerModule(ms);
    forall id ensures OfModule(Declared(ms), id)
                   == if id in callsByModule then CallsOf(id, callsByModule[id]) else []
    {
      OfModulePerModule(ms, DeclaredBy, id);
      if id in callsByModule {
        var m :| m in ms && m.id == id;
        var k :| 0 <= k < |ms| && ms[k] == m;
      }
    }
  }

  lemma SelectSnoc<T>(xs: seq<T>, j: nat, key: T -> string, k: string)
    requires j < |xs|
    ensures Select(xs[..j + 1], key, k) == Select(xs[..j], key, k) + if key(xs[j]) == k then [xs[j]] else []
  {
    assert xs[..j + 1] == xs[..j] + [xs[j]];
    SelectAppend(xs[..j], [xs[j]], key, k);
    assert [xs[j]][1..] == [];
  }

  lemma {:induction false} ArrangedAppend(calls: seq<Call>, a: seq<string>, b: seq<string>)
    ensures Arranged(calls, a + b) == Arranged(calls, a) + Arranged(calls, b)
    decreases |a|
  {
    if a == [] {
      assert a + b == b;
    } else {
      assert (a + b)[1..] == a[1..] + b;
      ArrangedAppend(calls, a[1..], b);
    }
  }

  lemma BodySnoc(calls: seq<Call>, order: seq<string>, i: nat, key: string)
    requires i < |order|
    ensures Body(calls, order[..i + 1], key)
         == Body(calls, order[..i], key) + OfHook(OfModule(calls, order[i]), key)
  {
    assert order[..i + 1] == order[..i] + [order[i]];
    ArrangedAppend(calls, order[..i], [order[i]]);
    assert [order[i]][1..] == [];
    assert Arranged(calls, [order[i]]) == OfModule(calls, order[i]);
    SelectAppend(Arranged(calls, order[..i]), OfModule(calls, order[i]), HookOf, key);
  }

  method StrictLines(
    order: seq<string>, callsByModule: map<string, seq<InitCall>>, key: string, ghost strict: seq<Call>)
    returns (lines: seq<string>)
    requires Groups(callsByModule, strict)
    ensures lines == Statements(Body(strict, order, key))
  {
    hide Arranged, Select;
    lines := [];
    var i := 0;
    assert Body(strict, [], key) == [] by { NothingArranged(strict, key); }
    assert order[..0] == [];
    while i < |order|
      invariant 0 <= i <= |order|
      invariant lines == Statements(Body(strict, order[..i], key))
    {
      var calls := if order[i] in callsByModule then callsByModule[order[i]] else [];
      ghost var done, own := Body(strict, order[..i], key), CallsOf(order[i], calls);
      assert OfModule(strict, order[i]) == own;
      var j := 0;
      assert own[..0] == [];
      SelectNothing(HookOf, key);
      while j < |calls|
        invariant 0 <= j <= |calls|
        invariant lines == Statements(done + OfHook(own[..j], key))
      {
        SelectSnoc(own, j, HookOf, key);
        if calls[j].hook == key {
          StatementsSnoc(done + OfHook(own[..j], key), own[j]);
          assert (done + OfHook(own[..j], key)) + [own[j]] == done + OfHook(own[..j + 1], key);
          lines := lines + ["  " + calls[j].statement];
        }
        j := j + 1;
      }
      assert own[..j] == own;
      BodySnoc(strict, order, i, key);
      i := i + 1;
    }
    assert order[..i] == order;
  }

  lemma NothingArranged(calls: seq<Call>, key: string)
    ensures Body(calls, [], key) == []
  {
  }

  lemma StatementsSnoc(calls: seq<Call>, c: Call)
    ensures Statements(calls + [c]) == Statements(calls) + ["  " + c.statement]
  {
  }

  method OptionalLines(order: seq<string>, matched: seq<Call>, key: string) returns (lines: seq<string>)
    ensures lines == Statements(Body(matched, order, key))
  {
    hide Arranged, Select;
    lines := [];
    var i := 0;
    assert Body(matched, [], key) == [] by { NothingArranged(matched, key); }
    assert order[..0] == [];
    while i < |order|
      invariant 0 <= i <= |order|
      invariant lines == Statements(Body(matched, order[..i], key))
    {
      ghost var done := Body(matched, order[..i], key);
      var j := 0;
      assert matched[..0] == [];
      SelectNothing(ModuleOf, order[i]);
      SelectNothing(HookOf, key);
      while j < |matched|
        invariant 0 <= j <= |matched|
        invariant lines == Statements(done + OfHook(OfModule(matched[..j], order[i]), key))
      {
        PickedSnoc(matched, j, order[i], key);
        if matched[j].moduleId == order[i] && matched[j].hook == key {
          ghost var picked := OfHook(OfModule(matched[..j], order[i]), key);
          StatementsSnoc(done + picked, matched[j]);
          assert (done + picked) + [matched[j]] == done + (picked + [matched[j]]);
          lines := lines + ["  " + matched[j].statement];
        }
        j := j + 1;
      }
      assert matched[..j] == matched;
      BodySnoc(matched, order, i, key);
      i := i + 1;
    }
    assert order[..i] == order;
  }

  lemma PickedSnoc(matched: seq<Call>, j: nat, id: string, key: string)
    requires j < |matched|
    ensures OfHook(OfModule(matched[..j + 1], id), key)
         == OfHook(OfModule(matched[..j], id), key)
            + if matched[j].moduleId == id && matched[j].hook == key then [matched[j]] else []
  {
    var c := matched[j];
    SelectSnoc(matched, j, ModuleOf, id);
    if c.moduleId == id {
      SelectAppend(OfModule(matched[..j], id), [c], HookOf, key);
      assert [c][1..] == [];
      assert OfHook([c], key) == if c.hook == key then [c] else [];
    } else {
      assert OfModule(matched[..j], id) + [] == OfModule(matched[..j], id);
    }
  }

  method EmitInitHooks(hooks: seq<Hook>, order: seq<string>, callsByModule: map<string, seq<InitCall>>,
                       matched: seq<Call>, ghost strict: seq<Call>)
    returns (text: string)
    requires Groups(callsByModule, strict)
    ensures text == HooksText(hooks, order, strict, matched)
  {
    var lines := ["' Auto-generated by brs-gen. Do not edit by hand.", ""];
    var i := 0;
    while i < |hooks|
      invariant 0 <= i <= |hooks|
      invariant lines == AllLines(hooks[..i], order, strict, matched)
    {
      var h := hooks[i];
      var strictLines := StrictLines(order, callsByModule, HookKey(h), strict);
      var optionalLines := OptionalLines(order, matched, HookKey(h));
      ghost var upTo := hooks[..i + 1];
      assert upTo[..|upTo| - 1] == hooks[..i] && upTo[|upTo| - 1] == h;
      lines := lines + (["sub " + DispatchName(h) + h.signature] + strictLines + optionalLines + ["end sub", ""]);
      i := i + 1;
    }
    assert hooks[..i] == hooks;
    text := Join(lines, "\n");
  }
}

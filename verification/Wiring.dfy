/**
 The contract between a template and its modules: required hooks and nodes exist, every init call names an exported
 hook, and optional calls are well-formed. Optional calls to exported hooks are matched, the others are skipped.
 */
module Wiring {
  import opened Catalog
  import opened Seqs

  datatype WiringError =
    | MissingHook(moduleId: string, hook: string)
    | MissingNode(moduleId: string, node: string)
    | OptionalHookMalformed(moduleId: string, hook: string)
    | OptionalDuplicatesStrict(moduleId: string, hook: string)

  /** A call of a module to a hook. */
  datatype Call = Call(moduleId: string, hook: string, statement: string)

  datatype WiringResult = Wired(matched: seq<Call>) | Failed(error: WiringError)

  function HookKey(h: Hook): string { h.scope + "." + h.phase }

  function ExportedHooks(t: Template): set<string> { set h | h in t.hooks :: HookKey(h) }

  function ExportedNodes(t: Template): set<string> { set n | n in t.sceneNodes }

  function StrictHooks(m: Module): set<string> { set c | c in m.initCalls :: c.hook }

  // ---------------------------------------------------------------- every error there is, in order

  function NeedError(t: Template, id: string, r: Requirement): seq<WiringError> {
    match r
    case NeedsHook(s, p) => if s + "." + p in ExportedHooks(t) then [] else [MissingHook(id, s + "." + p)]
    case NeedsNode(n) => if n in ExportedNodes(t) then [] else [MissingNode(id, n)]
  }

  function NeedErrors(t: Template, id: string, needs: seq<Requirement>): seq<WiringError> {
    if needs == [] then [] else NeedErrors(t, id, needs[..|needs| - 1]) + NeedError(t, id, needs[|needs| - 1])
  }

  function CallErrors(t: Template, id: string, calls: seq<InitCall>): seq<WiringError> {
    if calls == [] then []
    else
      CallErrors(t, id, calls[..|calls| - 1]) +
      if calls[|calls| - 1].hook in ExportedHooks(t) then [] else [MissingHook(id, calls[|calls| - 1].hook)]
  }

  function OptionalError(m: Module, c: InitCall): seq<WiringError> {
    if '.' !in c.hook then [OptionalHookMalformed(m.id, c.hook)]
    else if c.hook in StrictHooks(m) then [OptionalDuplicatesStrict(m.id, c.hook)]
    else []
  }

  function OptionalErrors(m: Module, calls: seq<InitCall>): seq<WiringError> {
    if calls == [] then [] else OptionalErrors(m, calls[..|calls| - 1]) + OptionalError(m, calls[|calls| - 1])
  }

  function StrictErrors(t: Template, ms: seq<Module>): seq<WiringError> {
    if ms == [] then []
    else
      var m := ms[|ms| - 1];
      StrictErrors(t, ms[..|ms| - 1]) + (NeedErrors(t, m.id, m.needs) + CallErrors(t, m.id, m.initCalls))
  }

  function AllOptionalErrors(ms: seq<Module>): seq<WiringError> {
    if ms == [] then []
    else AllOptionalErrors(ms[..|ms| - 1]) + OptionalErrors(ms[|ms| - 1], ms[|ms| - 1].optionalCalls)
  }

  function AllErrors(t: Template, ms: seq<Module>): seq<WiringError> { StrictErrors(t, ms) + AllOptionalErrors(ms) }

  /** The optional calls of one module that the template has a hook for. */
  function MatchedIn(t: Template, id: string, calls: seq<InitCall>): seq<Call> {
    if calls == [] then []
    else
      var c := calls[|calls| - 1];
      MatchedIn(t, id, calls[..|calls| - 1])
      + if c.hook in ExportedHooks(t) then [Call(id, c.hook, c.statement)] else []
  }

  function MatchedOf(t: Template, m: Module): seq<Call> { MatchedIn(t, m.id, m.optionalCalls) }

  function Matched(t: Template, ms: seq<Module>): seq<Call> {
    if ms == [] then [] else Matched(t, ms[..|ms| - 1]) + MatchedOf(t, ms[|ms| - 1])
  }

  /** The first error there is, or the matched calls. */
  function Validation(t: Template, ms: seq<Module>): WiringResult {
    if AllErrors(t, ms) == [] then Wired(Matched(t, ms)) else Failed(AllErrors(t, ms)[0])
  }

  // ---------------------------------------------------------------- when wiring succeeds

  /** The template has a hook whose scope and phase, with a dot between them, are this key. */
  ghost predicate Exports(t: Template, key: string) {
    exists h :: h in t.hooks && key == h.scope + "." + h.phase
  }

  lemma ExportedIff(t: Template, key: string)
    ensures key in ExportedHooks(t) <==> Exports(t, key)
  {
    if Exports(t, key) {
      var h :| h in t.hooks && key == h.scope + "." + h.phase;
      assert HookKey(h) == key;
    }
  }

  ghost predicate NeedMet(t: Template, r: Requirement) {
    match r
    case NeedsHook(s, p) => Exports(t, s + "." + p)
    case NeedsNode(n) => n in t.sceneNodes
  }

  /** Needs are met, strict calls go to exported hooks, and optional calls name a scope and no hook called strictly. */
  ghost predicate ModuleWired(t: Template, m: Module) {
    && (forall r :: r in m.needs ==> NeedMet(t, r))
    && (forall c :: c in m.initCalls ==> Exports(t, c.hook))
    && (forall c :: c in m.optionalCalls ==> '.' in c.hook && forall d :: d in m.initCalls ==> d.hook != c.hook)
  }

  lemma NeedErrorIff(t: Template, id: string, r: Requirement)
    ensures NeedError(t, id, r) == [] <==> NeedMet(t, r)
  {
    hide ExportedHooks, Exports;
    if r.NeedsHook? { ExportedIff(t, r.scope + "." + r.phase); }
  }

  lemma {:induction false} NeedErrorsEmptyIff(t: Template, id: string, needs: seq<Requirement>)
    ensures NeedErrors(t, id, needs) == [] <==> forall r :: r in needs ==> NeedMet(t, r)
    decreases |needs|
  {
    if needs != [] {
      var front, last := needs[..|needs| - 1], needs[|needs| - 1];
      NeedErrorsEmptyIff(t, id, front);
      NeedErrorIff(t, id, last);
      assert forall r :: r in needs <==> r in front || r == last;
    }
  }

  lemma {:induction false} CallErrorsEmptyIff(t: Template, id: string, calls: seq<InitCall>)
    ensures CallErrors(t, id, calls) == [] <==> forall c :: c in calls ==> Exports(t, c.hook)
    decreases |calls|
  {
    hide ExportedHooks, Exports;
    if calls != [] {
      CallErrorsEmptyIff(t, id, calls[..|calls| - 1]);
      ExportedIff(t, calls[|calls| - 1].hook);
      assert forall c :: c in calls <==> c in calls[..|calls| - 1] || c == calls[|calls| - 1];
    }
  }

  lemma {:induction false} OptionalErrorsEmptyIff(m: Module, calls: seq<InitCall>)
    ensures OptionalErrors(m, calls) == []
       <==> forall c :: c in calls ==> '.' in c.hook && forall d :: d in m.initCalls ==> d.hook != c.hook
    decreases |calls|
  {
    if calls != [] {
      OptionalErrorsEmptyIff(m, calls[..|calls| - 1]);
      assert forall c :: c in calls <==> c in calls[..|calls| - 1] || c == calls[|calls| - 1];
    }
  }

  lemma {:induction false} StrictErrorsEmptyIff(t: Template, ms: seq<Module>)
    ensures StrictErrors(t, ms) == [] <==>
      forall m :: m in ms ==> NeedErrors(t, m.id, m.needs) == [] && CallErrors(t, m.id, m.initCalls) == []
    decreases |ms|
  {
    if ms != [] {
      StrictErrorsEmptyIff(t, ms[..|ms| - 1]);
      assert forall m :: m in ms <==> m in ms[..|ms| - 1] || m == ms[|ms| - 1];
    }
  }

  lemma {:induction false} AllOptionalErrorsEmptyIff(ms: seq<Module>)
    ensures AllOptionalErrors(ms) == [] <==> forall m :: m in ms ==> OptionalErrors(m, m.optionalCalls) == []
    decreases |ms|
  {
    if ms != [] {
      AllOptionalErrorsEmptyIff(ms[..|ms| - 1]);
      assert forall m :: m in ms <==> m in ms[..|ms| - 1] || m == ms[|ms| - 1];
    }
  }

  /** Wiring succeeds exactly when every module meets its part of the contract, whatever the order of modules. */
  lemma WiredIff(t: Template, ms: seq<Module>)
    ensures Validation(t, ms).Wired? <==> forall m :: m in ms ==> ModuleWired(t, m)
  {
    StrictErrorsEmptyIff(t, ms);
    AllOptionalErrorsEmptyIff(ms);
    forall m | m in ms
      ensures ModuleWired(t, m) <==>
        NeedErrors(t, m.id, m.needs) == [] && CallErrors(t, m.id, m.initCalls) == []
        && OptionalErrors(m, m.optionalCalls) == []
    {
      NeedErrorsEmptyIff(t, m.id, m.needs);
      CallErrorsEmptyIff(t, m.id, m.initCalls);
      OptionalErrorsEmptyIff(m, m.optionalCalls);
    }
  }

  lemma {:induction false} MatchedInExactly(t: Template, id: string, calls: seq<InitCall>)
    ensures forall x :: x in MatchedIn(t, id, calls)
                   <==> exists c :: c in calls && Exports(t, c.hook) && x == Call(id, c.hook, c.statement)
    decreases |calls|
  {
    hide ExportedHooks, Exports;
    if calls != [] {
      ExportedIff(t, calls[|calls| - 1].hook);
      MatchedInExactly(t, id, calls[..|calls| - 1]);
      assert forall c :: c in calls <==> c in calls[..|calls| - 1] || c == calls[|calls| - 1];
    }
  }

  // ---------------------------------------------------------------- what the error says

  ghost predicate CallsTo(calls: seq<InitCall>, key: string) { exists c :: c in calls && c.hook == key }

  /** The module breaks the contract in the way that the error says. */
  ghost predicate Breaks(t: Template, m: Module, e: WiringError) {
    && e.moduleId == m.id
    && match e
       case MissingHook(_, key) =>
         && !Exports(t, key)
         && ((exists r :: r in m.needs && r.NeedsHook? && key == r.scope + "." + r.phase)
             || CallsTo(m.initCalls, key))
       case MissingNode(_, n) => n !in t.sceneNodes && NeedsNode(n) in m.needs
       case OptionalHookMalformed(_, key) => '.' !in key && CallsTo(m.optionalCalls, key)
       case OptionalDuplicatesStrict(_, key) =>
         '.' in key && CallsTo(m.optionalCalls, key) && CallsTo(m.initCalls, key)
  }

  lemma {:induction false} NeedErrorsBreak(t: Template, m: Module, needs: seq<Requirement>)
    requires forall r :: r in needs ==> r in m.needs
    ensures forall e :: e in NeedErrors(t, m.id, needs) ==> Breaks(t, m, e)
    decreases |needs|
  {
    hide ExportedHooks, Exports;
    if needs != [] {
      var last := needs[|needs| - 1];
      NeedErrorsBreak(t, m, needs[..|needs| - 1]);
      if last.NeedsHook? { ExportedIff(t, last.scope + "." + last.phase); }
    }
  }

  lemma {:induction false} CallErrorsBreak(t: Template, m: Module, calls: seq<InitCall>)
    requires forall c :: c in calls ==> c in m.initCalls
    ensures forall e :: e in CallErrors(t, m.id, calls) ==> Breaks(t, m, e)
    decreases |calls|
  {
    hide ExportedHooks, Exports;
    if calls != [] {
      CallErrorsBreak(t, m, calls[..|calls| - 1]);
      ExportedIff(t, calls[|calls| - 1].hook);
    }
  }

  lemma {:induction false} OptionalErrorsBreak(t: Template, m: Module, calls: seq<InitCall>)
    requires forall c :: c in calls ==> c in m.optionalCalls
    ensures forall e :: e in OptionalErrors(m, calls) ==> Breaks(t, m, e)
    decreases |calls|
  {
    if calls != [] { OptionalErrorsBreak(t, m, calls[..|calls| - 1]); }
  }

  /** The error reported is one of a module that is present, and true of it; optional calls are looked at last. */
  lemma ErrorIsTrue(t: Template, ms: seq<Module>) returns (m: Module)
    requires Validation(t, ms).Failed?
    ensures m in ms && Breaks(t, m, Validation(t, ms).error)
    ensures var e := Validation(t, ms).error;
            e.OptionalHookMalformed? || e.OptionalDuplicatesStrict? ==> StrictErrors(t, ms) == []
  {
    hide Breaks;
    var e := Validation(t, ms).error;
    if StrictErrors(t, ms) != [] {
      m := StrictErrorOwner(t, ms, e);
      NeedErrorsBreak(t, m, m.needs);
      CallErrorsBreak(t, m, m.initCalls);
      StrictErrorsAreStrict(t, m);
    } else {
      assert e == AllOptionalErrors(ms)[0];
      m := OptionalErrorOwner(ms, e);
      OptionalErrorsBreak(t, m, m.optionalCalls);
    }
  }

  lemma {:induction false} NeedErrorsAreStrict(t: Template, id: string, needs: seq<Requirement>)
    ensures forall e :: e in NeedErrors(t, id, needs) ==> e.MissingHook? || e.MissingNode?
    decreases |needs|
  {
    if needs != [] { NeedErrorsAreStrict(t, id, needs[..|needs| - 1]); }
  }

  lemma {:induction false} CallErrorsAreStrict(t: Template, id: string, calls: seq<InitCall>)
    ensures forall e :: e in CallErrors(t, id, calls) ==> e.MissingHook?
    decreases |calls|
  {
    if calls != [] { CallErrorsAreStrict(t, id, calls[..|calls| - 1]); }
  }

  lemma StrictErrorsAreStrict(t: Template, m: Module)
    ensures forall e :: e in NeedErrors(t, m.id, m.needs) || e in CallErrors(t, m.id, m.initCalls) ==>
              e.MissingHook? || e.MissingNode?
  {
    NeedErrorsAreStrict(t, m.id, m.needs);
    CallErrorsAreStrict(t, m.id, m.initCalls);
  }

  lemma {:induction false} StrictErrorOwner(t: Template, ms: seq<Module>, e: WiringError) returns (m: Module)
    requires e in StrictErrors(t, ms)
    ensures m in ms && (e in NeedErrors(t, m.id, m.needs) || e in CallErrors(t, m.id, m.initCalls))
    decreases |ms|
  {
    hide NeedErrors, CallErrors;
    var front := ms[..|ms| - 1];
    if e in StrictErrors(t, front) { m := StrictErrorOwner(t, front, e); } else { m := ms[|ms| - 1]; }
  }

  lemma {:induction false} OptionalErrorOwner(ms: seq<Module>, e: WiringError) returns (m: Module)
    requires e in AllOptionalErrors(ms)
    ensures m in ms && e in OptionalErrors(m, m.optionalCalls)
    decreases |ms|
  {
    hide OptionalErrors;
    var front := ms[..|ms| - 1];
    if e in AllOptionalErrors(front) { m := OptionalErrorOwner(front, e); } else { m := ms[|ms| - 1]; }
  }

  // ---------------------------------------------------------------- the check as it runs

  method CheckNeeds(t: Template, m: Module) returns (errors: seq<WiringError>)
    ensures var all := NeedErrors(t, m.id, m.needs); errors == if all == [] then [] else [all[0]]
  {
    var hooks, nodes := ExportedHooks(t), ExportedNodes(t);
    var i := 0;
    while i < |m.needs|
      invariant 0 <= i <= |m.needs| && NeedErrors(t, m.id, m.needs[..i]) == []
    {
      PrefixSnoc(m.needs, i);
      var error := match m.needs[i] {
        case NeedsHook(s, p) => if s + "." + p in hooks then [] else [MissingHook(m.id, s + "." + p)]
        case NeedsNode(n) => if n in nodes then [] else [MissingNode(m.id, n)]
      };
      if error != [] {
        NeedErrorsPrefix(t, m.id, m.needs, i + 1);
        return error;
      }
      i := i + 1;
    }
    assert m.needs[..i] == m.needs;
    errors := [];
  }

  lemma {:induction false} NeedErrorsPrefix(t: Template, id: string, needs: seq<Requirement>, i: nat)
    requires i <= |needs|
    ensures NeedErrors(t, id, needs[..i]) <= NeedErrors(t, id, needs)
    decreases |needs|
  {
    if i < |needs| {
      assert needs[..|needs| - 1][..i] == needs[..i];
      NeedErrorsPrefix(t, id, needs[..|needs| - 1], i);
    } else {
      assert needs[..i] == needs;
    }
  }

  method CheckCalls(t: Template, m: Module) returns (errors: seq<WiringError>)
    ensures var all := CallErrors(t, m.id, m.initCalls); errors == if all == [] then [] else [all[0]]
  {
    var hooks := ExportedHooks(t);
    var i := 0;
    while i < |m.initCalls|
      invariant 0 <= i <= |m.initCalls| && CallErrors(t, m.id, m.initCalls[..i]) == []
    {
      PrefixSnoc(m.initCalls, i);
      if m.initCalls[i].hook !in hooks {
        CallErrorsPrefix(t, m.id, m.initCalls, i + 1);
        return [MissingHook(m.id, m.initCalls[i].hook)];
      }
      i := i + 1;
    }
    assert m.initCalls[..i] == m.initCalls;
    errors := [];
  }

  lemma {:induction false} CallErrorsPrefix(t: Template, id: string, calls: seq<InitCall>, i: nat)
    requires i <= |calls|
    ensures CallErrors(t, id, calls[..i]) <= CallErrors(t, id, calls)
    decreases |calls|
  {
    if i < |calls| {
      assert calls[..|calls| - 1][..i] == calls[..i];
      CallErrorsPrefix(t, id, calls[..|calls| - 1], i);
    } else {
      assert calls[..i] == calls;
    }
  }

  lemma NothingOptional(t: Template, m: Module)
    ensures OptionalErrors(m, []) == [] && MatchedIn(t, m.id, []) == []
  {
  }

  lemma OptionalSnoc(t: Template, m: Module, i: nat)
    requires i < |m.optionalCalls|
    ensures OptionalErrors(m, m.optionalCalls[..i + 1])
         == OptionalErrors(m, m.optionalCalls[..i]) + OptionalError(m, m.optionalCalls[i])
    ensures var c := m.optionalCalls[i];
            MatchedIn(t, m.id, m.optionalCalls[..i + 1])
            == MatchedIn(t, m.id, m.optionalCalls[..i])
               + if c.hook in ExportedHooks(t) then [Call(m.id, c.hook, c.statement)] else []
  {
    hide OptionalError, ExportedHooks;
    PrefixSnoc(m.optionalCalls, i);
  }

  /** One module's optional calls: matched, skipped, or the first error. */
  method MatchOptional(t: Template, m: Module) returns (errors: seq<WiringError>, matched: seq<Call>)
    ensures var all := OptionalErrors(m, m.optionalCalls); errors == if all == [] then [] else [all[0]]
    ensures errors == [] ==> matched == MatchedOf(t, m)
  {
    hide OptionalErrors, MatchedIn, StrictHooks, ExportedHooks;
    var hooks := ExportedHooks(t);
    matched := [];
    NothingOptional(t, m);
    assert m.optionalCalls[..0] == [];
    var i := 0;
    while i < |m.optionalCalls|
      invariant 0 <= i <= |m.optionalCalls| && OptionalErrors(m, m.optionalCalls[..i]) == []
      invariant matched == MatchedIn(t, m.id, m.optionalCalls[..i])
    {
      OptionalSnoc(t, m, i);
      var oc := m.optionalCalls[i];
      var error := OptionalError(m, oc);
      if error != [] {
        OptionalErrorsPrefix(m, m.optionalCalls, i + 1);
        return error, matched;
      }
      if oc.hook in hooks { matched := matched + [Call(m.id, oc.hook, oc.statement)]; }
      i := i + 1;
    }
    assert m.optionalCalls[..i] == m.optionalCalls;
    errors := [];
  }

  lemma {:induction false} OptionalErrorsPrefix(m: Module, calls: seq<InitCall>, i: nat)
    requires i <= |calls|
    ensures OptionalErrors(m, calls[..i]) <= OptionalErrors(m, calls)
    decreases |calls|
  {
    if i < |calls| {
      assert calls[..|calls| - 1][..i] == calls[..i];
      OptionalErrorsPrefix(m, calls[..|calls| - 1], i);
    } else {
      assert calls[..i] == calls;
    }
  }

  lemma {:induction false} StrictErrorsPrefix(t: Template, ms: seq<Module>, i: nat)
    requires i <= |ms|
    ensures StrictErrors(t, ms[..i]) <= StrictErrors(t, ms)
    decreases |ms|
  {
    if i < |ms| {
      assert ms[..|ms| - 1][..i] == ms[..i];
      StrictErrorsPrefix(t, ms[..|ms| - 1], i);
    } else {
      assert ms[..i] == ms;
    }
  }

  lemma {:induction false} AllOptionalErrorsPrefix(ms: seq<Module>, i: nat)
    requires i <= |ms|
    ensures AllOptionalErrors(ms[..i]) <= AllOptionalErrors(ms)
    decreases |ms|
  {
    if i < |ms| {
      assert ms[..|ms| - 1][..i] == ms[..i];
      AllOptionalErrorsPrefix(ms[..|ms| - 1], i);
    } else {
      assert ms[..i] == ms;
    }
  }

  lemma NothingWired(t: Template)
    ensures StrictErrors(t, []) == [] && AllOptionalErrors([]) == [] && Matched(t, []) == []
  {
  }

  /** What one more module adds. */
  lemma WiringSnoc(t: Template, ms: seq<Module>, i: nat)
    requires i < |ms|
    ensures var m, upTo := ms[i], ms[..i + 1];
            && StrictErrors(t, upTo)
               == StrictErrors(t, ms[..i]) + (NeedErrors(t, m.id, m.needs) + CallErrors(t, m.id, m.initCalls))
            && AllOptionalErrors(upTo) == AllOptionalErrors(ms[..i]) + OptionalErrors(m, m.optionalCalls)
            && Matched(t, upTo) == Matched(t, ms[..i]) + MatchedOf(t, m)
  {
    hide NeedErrors, CallErrors, OptionalErrors, MatchedOf;
    PrefixSnoc(ms, i);
  }

  method ValidateWiring(t: Template, ms: seq<Module>) returns (r: WiringResult)
    ensures r == Validation(t, ms)
  {
    hide StrictErrors, NeedErrors, CallErrors, AllOptionalErrors, OptionalErrors, Matched, MatchedOf;
    NothingWired(t);
    assert ms[..0] == [];
    var i := 0;
    while i < |ms|
      invariant 0 <= i <= |ms| && StrictErrors(t, ms[..i]) == []
    {
      WiringSnoc(t, ms, i);
      var needErrors := CheckNeeds(t, ms[i]);
      var callErrors := CheckCalls(t, ms[i]);
      if needErrors != [] {
        StrictErrorsPrefix(t, ms, i + 1);
        return Failed(needErrors[0]);
      }
      if callErrors != [] {
        StrictErrorsPrefix(t, ms, i + 1);
        return Failed(callErrors[0]);
      }
      i := i + 1;
    }
    assert ms[..i] == ms;
    var matchedOptional: seq<Call> := [];
    i := 0;
    while i < |ms|
      invariant 0 <= i <= |ms| && AllOptionalErrors(ms[..i]) == []
      invariant matchedOptional == Matched(t, ms[..i])
    {
      WiringSnoc(t, ms, i);
      var errors, matched := MatchOptional(t, ms[i]);
      if errors != [] {
        AllOptionalErrorsPrefix(ms, i + 1);
        return Failed(errors[0]);
      }
      matchedOptional := matchedOptional + matched;
      i := i + 1;
    }
    assert ms[..i] == ms;
    r := Wired(matchedOptional);
  }
}

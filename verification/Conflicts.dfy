/**
 Modules that exclude each other, and files that two parties would add. The first conflict is reported, exclusions
 before files.
 */
module Conflicts {
  import opened Catalog
  import opened Seqs

  datatype Conflict =
    | Excluded(a: string, b: string)
    | Reserved(path: string, owner: string)
    | Collision(path: string, ownerA: string, ownerB: string)

  datatype Detection = NoConflict | Found(conflict: Conflict)

  /** A file that a module adds. */
  datatype Addition = Addition(path: string, moduleId: string)

  predicate IsReserved(path: string) { "source/_template/" <= path || "assets/" <= path }

  function AdditionsOf(m: Module): (added: seq<Addition>)
    ensures |added| == |m.files| && forall i :: 0 <= i < |added| ==> added[i] == Addition(m.files[i], m.id)
  {
    seq(|m.files|, i requires 0 <= i < |m.files| => Addition(m.files[i], m.id))
  }

  function Additions(ms: seq<Module>): seq<Addition> {
    if ms == [] then [] else Additions(ms[..|ms| - 1]) + AdditionsOf(ms[|ms| - 1])
  }

  // ---------------------------------------------------------------- all conflicts, in order

  function ExclusionsOf(id: string, others: seq<string>, present: set<string>): seq<Conflict> {
    if others == [] then []
    else
      ExclusionsOf(id, others[..|others| - 1], present)
      + if others[|others| - 1] in present then [Excluded(id, others[|others| - 1])] else []
  }

  function Exclusions(ms: seq<Module>, present: set<string>): seq<Conflict> {
    if ms == [] then []
    else Exclusions(ms[..|ms| - 1], present) + ExclusionsOf(ms[|ms| - 1].id, ms[|ms| - 1].exclusiveWith, present)
  }

  /** Who owns which path once the files have been added. */
  function Owners(templatePaths: seq<string>, added: seq<Addition>): map<string, string> {
    if added == [] then map p | p in templatePaths :: "<template>"
    else
      var last := added[|added| - 1];
      Owners(templatePaths, added[..|added| - 1])[last.path := "module:" + last.moduleId]
  }

  function AdditionConflict(owners: map<string, string>, a: Addition): seq<Conflict> {
    if IsReserved(a.path) then [Reserved(a.path, a.moduleId)]
    else if a.path in owners then [Collision(a.path, owners[a.path], a.moduleId)]
    else []
  }

  function FileConflicts(templatePaths: seq<string>, added: seq<Addition>): seq<Conflict> {
    if added == [] then []
    else
      var front := added[..|added| - 1];
      FileConflicts(templatePaths, front) + AdditionConflict(Owners(templatePaths, front), added[|added| - 1])
  }

  function AllConflicts(ms: seq<Module>, templatePaths: seq<string>): seq<Conflict> {
    Exclusions(ms, Ids(ms)) + FileConflicts(templatePaths, Additions(ms))
  }

  function Detect(ms: seq<Module>, templatePaths: seq<string>): Detection {
    var all := AllConflicts(ms, templatePaths);
    if all == [] then NoConflict else Found(all[0])
  }

  // ---------------------------------------------------------------- when there is none

  function Paths(added: seq<Addition>): set<string> { set a | a in added :: a.path }

  /** The directories that belong to the template. */
  ghost predicate OfTemplate(path: string) {
    exists rest :: path == "source/_template/" + rest || path == "assets/" + rest
  }

  lemma ReservedIff(path: string)
    ensures IsReserved(path) <==> OfTemplate(path)
  {
    if "source/_template/" <= path { assert path == "source/_template/" + path[|"source/_template/"|..]; }
    if "assets/" <= path { assert path == "assets/" + path[|"assets/"|..]; }
  }

  ghost predicate Disjoint(m: Module, n: Module) { forall p :: p in m.files ==> p !in n.files }

  /** Every file of a module is free to add, by that module alone and once. */
  ghost predicate FilesFree(templatePaths: seq<string>, ms: seq<Module>) {
    && (forall m, p :: m in ms && p in m.files ==> !OfTemplate(p) && p !in templatePaths)
    && (forall m :: m in ms ==> Distinct(m.files))
    && forall i, j :: 0 <= i < j < |ms| ==> Disjoint(ms[i], ms[j])
  }

  /** No module names a present one as exclusive, and all files are free. */
  ghost predicate Compatible(ms: seq<Module>, templatePaths: seq<string>) {
    && (forall m, other :: m in ms && other in m.exclusiveWith ==> other !in Ids(ms))
    && FilesFree(templatePaths, ms)
  }

  lemma {:induction false} ExclusionsOfEmptyIff(id: string, others: seq<string>, present: set<string>)
    ensures ExclusionsOf(id, others, present) == [] <==> forall other :: other in others ==> other !in present
    decreases |others|
  {
    if others != [] {
      ExclusionsOfEmptyIff(id, others[..|others| - 1], present);
      assert forall o :: o in others <==> o in others[..|others| - 1] || o == others[|others| - 1];
    }
  }

  lemma {:induction false} ExclusionsEmptyIff(ms: seq<Module>, present: set<string>)
    ensures Exclusions(ms, present) == []
       <==> forall m, other :: m in ms && other in m.exclusiveWith ==> other !in present
    decreases |ms|
  {
    if ms != [] {
      var front, last := ms[..|ms| - 1], ms[|ms| - 1];
      ExclusionsEmptyIff(front, present);
      ExclusionsOfEmptyIff(last.id, last.exclusiveWith, present);
      assert forall m :: m in ms <==> m in front || m == last;
    }
  }

  lemma {:induction false} OwnersKeys(templatePaths: seq<string>, added: seq<Addition>)
    ensures forall p :: p in Owners(templatePaths, added) <==> p in templatePaths || p in Paths(added)
    decreases |added|
  {
    if added != [] {
      OwnersKeys(templatePaths, added[..|added| - 1]);
      assert forall a :: a in added <==> a in added[..|added| - 1] || a == added[|added| - 1];
    }
  }

  /** Every file is free when it is added. */
  ghost predicate Clean(templatePaths: seq<string>, added: seq<Addition>) {
    && (forall a :: a in added ==> !OfTemplate(a.path) && a.path !in templatePaths)
    && forall i, j :: 0 <= i < j < |added| ==> added[i].path != added[j].path
  }

  lemma {:induction false} FileConflictsEmptyIff(templatePaths: seq<string>, added: seq<Addition>)
    ensures FileConflicts(templatePaths, added) == [] <==> Clean(templatePaths, added)
    decreases |added|
  {
    hide IsReserved, OfTemplate;
    if added != [] {
      var front, last := added[..|added| - 1], added[|added| - 1];
      ReservedIff(last.path);
      FileConflictsEmptyIff(templatePaths, front);
      OwnersKeys(templatePaths, front);
      CleanSnoc(templatePaths, front, last);
      assert front + [last] == added;
    }
  }

  lemma CleanSnoc(templatePaths: seq<string>, front: seq<Addition>, last: Addition)
    ensures Clean(templatePaths, front + [last])
       <==> && Clean(templatePaths, front) && !OfTemplate(last.path)
            && last.path !in templatePaths && last.path !in Paths(front)
  {
    CleanAppend(templatePaths, front, [last]);
  }

  ghost predicate PathsDisjoint(xs: seq<Addition>, ys: seq<Addition>) { Paths(xs) !! Paths(ys) }

  lemma CleanAppend(templatePaths: seq<string>, xs: seq<Addition>, ys: seq<Addition>)
    ensures Clean(templatePaths, xs + ys)
       <==> Clean(templatePaths, xs) && Clean(templatePaths, ys) && PathsDisjoint(xs, ys)
  {
    var all := xs + ys;
    if Clean(templatePaths, all) {
      assert forall a :: a in xs || a in ys ==> a in all;
      assert forall i :: 0 <= i < |xs| ==> all[i] == xs[i];
      assert forall i :: 0 <= i < |ys| ==> all[|xs| + i] == ys[i];
      forall x, y | x in xs && y in ys ensures x.path != y.path {
        var i :| 0 <= i < |xs| && xs[i] == x;
        var j :| 0 <= j < |ys| && ys[j] == y;
        assert all[i].path != all[|xs| + j].path;
      }
    }
    if Clean(templatePaths, xs) && Clean(templatePaths, ys) && Paths(xs) !! Paths(ys) {
      forall i, j | 0 <= i < j < |all| ensures all[i].path != all[j].path {
        if i < |xs| <= j {
          assert xs[i] in xs && ys[j - |xs|] in ys;
          assert xs[i].path in Paths(xs) && ys[j - |xs|].path in Paths(ys);
        }
      }
    }
  }

  lemma PathsOf(m: Module)
    ensures forall p :: p in Paths(AdditionsOf(m)) <==> p in m.files
  {
    forall p | p in m.files ensures p in Paths(AdditionsOf(m)) {
      var i :| 0 <= i < |m.files| && m.files[i] == p;
      assert AdditionsOf(m)[i].path == p;
    }
  }

  lemma {:induction false} PathsOfAll(ms: seq<Module>)
    ensures forall p :: p in Paths(Additions(ms)) <==> exists m :: m in ms && p in m.files
    decreases |ms|
  {
    if ms != [] {
      var front, last := ms[..|ms| - 1], ms[|ms| - 1];
      PathsOfAll(front);
      PathsOf(last);
      assert Paths(Additions(ms)) == Paths(Additions(front)) + Paths(AdditionsOf(last));
      assert forall m :: m in ms <==> m in front || m == last;
    }
  }

  lemma CleanOf(templatePaths: seq<string>, m: Module)
    ensures Clean(templatePaths, AdditionsOf(m))
       <==> (forall p :: p in m.files ==> !OfTemplate(p) && p !in templatePaths) && Distinct(m.files)
  {
    var added := AdditionsOf(m);
    assert forall i :: 0 <= i < |m.files| ==> added[i] in added && m.files[i] in m.files;
  }

  lemma {:induction false} CleanIff(templatePaths: seq<string>, ms: seq<Module>)
    ensures Clean(templatePaths, Additions(ms)) <==> FilesFree(templatePaths, ms)
    decreases |ms|
  {
    if ms != [] {
      var front, last := ms[..|ms| - 1], ms[|ms| - 1];
      hide Clean, FilesFree, Disjoint, PathsDisjoint, OfTemplate, Distinct, AdditionsOf;
      CleanIff(templatePaths, front);
      CleanAppend(templatePaths, Additions(front), AdditionsOf(last));
      CleanOf(templatePaths, last);
      DisjointPaths(front, last);
      FilesFreeSnoc(templatePaths, front, last);
      assert front + [last] == ms;
    }
  }

  lemma DisjointPaths(front: seq<Module>, last: Module)
    ensures PathsDisjoint(Additions(front), AdditionsOf(last)) <==> forall m :: m in front ==> Disjoint(m, last)
  {
    hide Paths, Additions;
    PathsOf(last);
    PathsOfAll(front);
  }

  lemma FilesFreeSnoc(templatePaths: seq<string>, front: seq<Module>, last: Module)
    ensures FilesFree(templatePaths, front + [last])
       <==> && FilesFree(templatePaths, front)
            && (forall p :: p in last.files ==> !OfTemplate(p) && p !in templatePaths) && Distinct(last.files)
            && forall m :: m in front ==> Disjoint(m, last)
  {
    var ms := front + [last];
    assert forall m :: m in ms <==> m in front || m == last;
    assert forall i :: 0 <= i < |front| ==> ms[i] == front[i];
    assert ms[|front|] == last;
  }

  /** No conflict is found exactly when the modules are compatible. */
  lemma NoConflictIff(ms: seq<Module>, templatePaths: seq<string>)
    ensures Detect(ms, templatePaths).NoConflict? <==> Compatible(ms, templatePaths)
  {
    hide Clean, FilesFree, FileConflicts, Exclusions;
    ExclusionsEmptyIff(ms, Ids(ms));
    FileConflictsEmptyIff(templatePaths, Additions(ms));
    CleanIff(templatePaths, ms);
  }

  /** Whether there is a conflict does not depend on the order in which the modules are listed. */
  lemma CompatiblePermuted(ms: seq<Module>, ns: seq<Module>, templatePaths: seq<string>)
    requires DistinctIds(ms) && Permuted(ms, ns) && Compatible(ms, templatePaths)
    ensures Compatible(ns, templatePaths)
  {
    PermutedMembers(ms, ns);
    PermutedDistinct(ms, ns);
    forall i, j | 0 <= i < j < |ns| ensures Disjoint(ns[i], ns[j]) {
      assert ns[i] in ms && ns[j] in ms;
      var k :| 0 <= k < |ms| && ms[k] == ns[i];
      var l :| 0 <= l < |ms| && ms[l] == ns[j];
      if k < l {
        assert Disjoint(ms[k], ms[l]);
      } else {
        assert Disjoint(ms[l], ms[k]);
      }
    }
  }

  // ---------------------------------------------------------------- what the conflict says

  /** Two modules are present, and the first names the second as exclusive. */
  ghost predicate IsExclusion(ms: seq<Module>, c: Conflict) {
    c.Excluded? && c.b in Ids(ms) && exists m :: m in ms && m.id == c.a && c.b in m.exclusiveWith
  }

  lemma {:induction false} ExclusionsOfAre(id: string, others: seq<string>, present: set<string>)
    ensures forall c :: c in ExclusionsOf(id, others, present) ==>
              c.Excluded? && c.a == id && c.b in others && c.b in present
    decreases |others|
  {
    if others != [] { ExclusionsOfAre(id, others[..|others| - 1], present); }
  }

  lemma {:induction false} ExclusionsAre(ms: seq<Module>, present: set<string>)
    ensures forall c :: c in Exclusions(ms, present) ==>
              c.Excluded? && c.b in present && exists m :: m in ms && m.id == c.a && c.b in m.exclusiveWith
    decreases |ms|
  {
    if ms != [] {
      var front, last := ms[..|ms| - 1], ms[|ms| - 1];
      ExclusionsAre(front, present);
      ExclusionsOfAre(last.id, last.exclusiveWith, present);
      assert last in ms && forall m :: m in front ==> m in ms;
    }
  }

  /** Who owns a path: the template, or a module that added it. */
  ghost predicate IsOwner(templatePaths: seq<string>, added: seq<Addition>, path: string, owner: string) {
    (owner == "<template>" && path in templatePaths)
    || exists a :: a in added && a.path == path && owner == "module:" + a.moduleId
  }

  lemma {:induction false} OwnersAre(templatePaths: seq<string>, added: seq<Addition>)
    ensures forall p :: p in Owners(templatePaths, added) ==>
              IsOwner(templatePaths, added, p, Owners(templatePaths, added)[p])
    decreases |added|
  {
    if added != [] {
      var front, last := added[..|added| - 1], added[|added| - 1];
      OwnersAre(templatePaths, front);
      assert last in added && forall a :: a in front ==> a in added;
    }
  }

  /** The addition at `k` is the first that is not free: it is reserved, or it collides with an owner it has already. */
  ghost predicate IsFirstCollision(templatePaths: seq<string>, added: seq<Addition>, k: nat, c: Conflict) {
    && k < |added| && Clean(templatePaths, added[..k])
    && match c
       case Excluded(_, _) => false
       case Reserved(path, id) => added[k] == Addition(path, id) && OfTemplate(path)
       case Collision(path, owner, id) =>
         added[k] == Addition(path, id) && !OfTemplate(path) && IsOwner(templatePaths, added[..k], path, owner)
  }

  lemma {:induction false} FirstCollisionIs(templatePaths: seq<string>, added: seq<Addition>) returns (k: nat)
    requires FileConflicts(templatePaths, added) != []
    ensures IsFirstCollision(templatePaths, added, k, FileConflicts(templatePaths, added)[0])
    decreases |added|
  {
    hide Clean, OfTemplate, IsOwner;
    var front, last := added[..|added| - 1], added[|added| - 1];
    if FileConflicts(templatePaths, front) != [] {
      k := FirstCollisionIs(templatePaths, front);
      assert added[..k] == front[..k] && added[k] == front[k];
    } else {
      k := |front|;
      FileConflictsEmptyIff(templatePaths, front);
      ReservedIff(last.path);
      OwnersAre(templatePaths, front);
    }
  }

  /** What is reported is an exclusion if there is one, and otherwise the first collision of files. */
  lemma FoundIs(ms: seq<Module>, templatePaths: seq<string>) returns (k: nat)
    requires Detect(ms, templatePaths).Found?
    ensures var c := Detect(ms, templatePaths).conflict;
            if exists m, other :: m in ms && other in m.exclusiveWith && other in Ids(ms) then IsExclusion(ms, c)
            else IsFirstCollision(templatePaths, Additions(ms), k, c)
  {
    hide FileConflicts, Exclusions, Additions, IsFirstCollision;
    k := 0;
    ExclusionsEmptyIff(ms, Ids(ms));
    ExclusionsAre(ms, Ids(ms));
    if Exclusions(ms, Ids(ms)) == [] { k := FirstCollisionIs(templatePaths, Additions(ms)); }
  }

  // ---------------------------------------------------------------- detection as it runs

  lemma {:induction false} ExclusionsOfPrefix(id: string, others: seq<string>, present: set<string>, i: nat)
    requires i <= |others|
    ensures ExclusionsOf(id, others[..i], present) <= ExclusionsOf(id, others, present)
    decreases |others|
  {
    if i < |others| {
      assert others[..|others| - 1][..i] == others[..i];
      ExclusionsOfPrefix(id, others[..|others| - 1], present, i);
    } else {
      assert others[..i] == others;
    }
  }

  lemma {:induction false} ExclusionsPrefix(ms: seq<Module>, present: set<string>, i: nat)
    requires i <= |ms|
    ensures Exclusions(ms[..i], present) <= Exclusions(ms, present)
    decreases |ms|
  {
    if i < |ms| {
      assert ms[..|ms| - 1][..i] == ms[..i];
      ExclusionsPrefix(ms[..|ms| - 1], present, i);
    } else {
      assert ms[..i] == ms;
    }
  }

  lemma {:induction false} FileConflictsPrefix(templatePaths: seq<string>, added: seq<Addition>, more: seq<Addition>)
    ensures FileConflicts(templatePaths, added) <= FileConflicts(templatePaths, added + more)
    decreases |more|
  {
    hide FileConflicts, Owners, AdditionConflict;
    if more == [] {
      assert added + more == added;
    } else {
      var j := |more| - 1;
      assert more[..j + 1] == more;
      FileConflictsPrefix(templatePaths, added, more[..j]);
      AddOne(templatePaths, added, more, j);
    }
  }

  lemma {:induction false} AdditionsPrefix(ms: seq<Module>, i: nat)
    requires i <= |ms|
    ensures Additions(ms[..i]) <= Additions(ms)
    decreases |ms|
  {
    if i < |ms| {
      assert ms[..|ms| - 1][..i] == ms[..i];
      AdditionsPrefix(ms[..|ms| - 1], i);
    } else {
      assert ms[..i] == ms;
    }
  }

  /** The first exclusion of a module that is present. */
  method FindExclusion(ms: seq<Module>, present: set<string>) returns (found: seq<Conflict>)
    ensures var all := Exclusions(ms, present); found == if all == [] then [] else [all[0]]
  {
    hide Exclusions, ExclusionsOf;
    NothingExcluded(present);
    var i := 0;
    assert ms[..0] == [];
    while i < |ms|
      invariant 0 <= i <= |ms| && Exclusions(ms[..i], present) == []
    {
      var m := ms[i];
      ExclusionsSnoc(ms, present, i);
      assert m.exclusiveWith[..0] == [];
      NothingExcludedBy(m.id, present);
      var j := 0;
      while j < |m.exclusiveWith|
        invariant 0 <= j <= |m.exclusiveWith| && ExclusionsOf(m.id, m.exclusiveWith[..j], present) == []
      {
        ExclusionsOfSnoc(m.id, m.exclusiveWith, present, j);
        if m.exclusiveWith[j] in present {
          ExclusionsOfPrefix(m.id, m.exclusiveWith, present, j + 1);
          ExclusionsPrefix(ms, present, i + 1);
          return [Excluded(m.id, m.exclusiveWith[j])];
        }
        j := j + 1;
      }
      assert m.exclusiveWith[..j] == m.exclusiveWith;
      i := i + 1;
    }
    assert ms[..i] == ms;
    found := [];
  }

  lemma NothingExcluded(present: set<string>)
    ensures Exclusions([], present) == []
  {
  }

  lemma NothingExcludedBy(id: string, present: set<string>)
    ensures ExclusionsOf(id, [], present) == []
  {
  }

  lemma ExclusionsSnoc(ms: seq<Module>, present: set<string>, i: nat)
    requires i < |ms|
    ensures Exclusions(ms[..i + 1], present)
         == Exclusions(ms[..i], present) + ExclusionsOf(ms[i].id, ms[i].exclusiveWith, present)
  {
    PrefixSnoc(ms, i);
  }

  lemma ExclusionsOfSnoc(id: string, others: seq<string>, present: set<string>, j: nat)
    requires j < |others|
    ensures ExclusionsOf(id, others[..j + 1], present)
         == ExclusionsOf(id, others[..j], present) + if others[j] in present then [Excluded(id, others[j])] else []
  {
    PrefixSnoc(others, j);
  }

  /** What one more addition does to the conflicts and owners. */
  lemma AddOne(templatePaths: seq<string>, before: seq<Addition>, added: seq<Addition>, j: nat)
    requires j < |added|
    ensures FileConflicts(templatePaths, before + added[..j + 1])
         == FileConflicts(templatePaths, before + added[..j])
            + AdditionConflict(Owners(templatePaths, before + added[..j]), added[j])
    ensures Owners(templatePaths, before + added[..j + 1])
         == Owners(templatePaths, before + added[..j])[added[j].path := "module:" + added[j].moduleId]
  {
    var upTo := before + added[..j + 1];
    assert upTo[..|upTo| - 1] == before + added[..j] && upTo[|upTo| - 1] == added[j];
  }

  lemma ConflictStays(templatePaths: seq<string>, ms: seq<Module>, i: nat, j: nat)
    requires i < |ms| && j <= |ms[i].files|
    ensures FileConflicts(templatePaths, Additions(ms[..i]) + AdditionsOf(ms[i])[..j])
         <= FileConflicts(templatePaths, Additions(ms))
  {
    hide Additions, FileConflicts;
    var before, own := Additions(ms[..i]), AdditionsOf(ms[i]);
    AdditionsPrefix(ms, i + 1);
    AdditionsSnoc(ms, i);
    var upTo := before + own[..j];
    assert before + own == upTo + own[j..];
    var all := Additions(ms);
    assert all == upTo + all[|upTo|..] by {
      assert upTo <= before + own <= all;
    }
    FileConflictsPrefix(templatePaths, upTo, all[|upTo|..]);
  }

  lemma AdditionsSnoc(ms: seq<Module>, i: nat)
    requires i < |ms|
    ensures Additions(ms[..i + 1]) == Additions(ms[..i]) + AdditionsOf(ms[i])
  {
    PrefixSnoc(ms, i);
  }

  method TemplateOwners(templatePaths: seq<string>) returns (owners: map<string, string>)
    ensures owners == Owners(templatePaths, [])
  {
    owners := map[];
    var i := 0;
    while i < |templatePaths|
      invariant 0 <= i <= |templatePaths| && owners == map p | p in templatePaths[..i] :: "<template>"
    {
      assert forall p :: p in templatePaths[..i + 1] <==> p in templatePaths[..i] || p == templatePaths[i];
      owners := owners[templatePaths[i] := "<template>"];
      i := i + 1;
    }
    assert templatePaths[..i] == templatePaths;
  }

  /** The first file that is reserved or already owned. */
  method FindCollision(ms: seq<Module>, templatePaths: seq<string>) returns (found: seq<Conflict>)
    ensures var all := FileConflicts(templatePaths, Additions(ms)); found == if all == [] then [] else [all[0]]
  {
    hide Additions, Owners, FileConflicts;
    var owners := TemplateOwners(templatePaths);
    var i := 0;
    assert ms[..0] == [];
    NothingAdded(templatePaths);
    while i < |ms|
      invariant 0 <= i <= |ms|
      invariant FileConflicts(templatePaths, Additions(ms[..i])) == []
      invariant owners == Owners(templatePaths, Additions(ms[..i]))
    {
      var m := ms[i];
      ghost var before, own := Additions(ms[..i]), AdditionsOf(m);
      var j := 0;
      assert before + own[..0] == before;
      while j < |m.files|
        invariant 0 <= j <= |m.files|
        invariant FileConflicts(templatePaths, before + own[..j]) == []
        invariant owners == Owners(templatePaths, before + own[..j])
      {
        AddOne(templatePaths, before, own, j);
        var a := Addition(m.files[j], m.id);
        var conflict := AdditionConflict(owners, a);
        if conflict != [] {
          ConflictStays(templatePaths, ms, i, j + 1);
          return conflict;
        }
        owners := owners[a.path := "module:" + m.id];
        j := j + 1;
      }
      assert own[..j] == own;
      AdditionsSnoc(ms, i);
      i := i + 1;
    }
    assert ms[..i] == ms;
    found := [];
  }

  lemma NothingAdded(templatePaths: seq<string>)
    ensures Additions([]) == [] && FileConflicts(templatePaths, []) == []
  {
  }

  method DetectConflicts(ms: seq<Module>, templatePaths: seq<string>) returns (r: Detection)
    ensures r == Detect(ms, templatePaths)
  {
    var exclusions := FindExclusion(ms, Ids(ms));
    if exclusions != [] { return Found(exclusions[0]); }
    var collisions := FindCollision(ms, templatePaths);
    r := if collisions == [] then NoConflict else Found(collisions[0]);
  }
}

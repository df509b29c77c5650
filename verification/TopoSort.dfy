/**
 The sort as it is computed: in-degrees and edge sets are built constraint by constraint, and a sorted queue of
 ready modules is kept up to date while modules are taken from it. It yields what InitOrder.Sorting specifies.
 */
module TopoSort {
  import opened Order
  import opened Seqs
  import opened Catalog
  import opened InitOrder

  /** The edge sets and in-degrees that have been built for the edges `E`. */
  ghost predicate Represents(
    outEdges: map<string, set<string>>, inDeg: map<string, int>, nodes: set<string>, E: set<Edge>)
  {
    && outEdges.Keys == nodes && inDeg.Keys == nodes
    && forall n :: n in nodes ==> outEdges[n] == Succs(E, n) && inDeg[n] == |Preds(E, n)|
  }

  method AddEdge(outEdges: map<string, set<string>>, inDeg: map<string, int>, a: string, b: string,
                 ghost nodes: set<string>, ghost E: set<Edge>)
    returns (outEdges': map<string, set<string>>, inDeg': map<string, int>)
    requires Represents(outEdges, inDeg, nodes, E) && a in nodes && b in nodes
    ensures Represents(outEdges', inDeg', nodes, E + {(a, b)})
  {
    hide Succs, Preds;
    outEdges', inDeg' := outEdges, inDeg;
    NeighbourIff(E, a, b);
    if b !in outEdges[a] {
      AddNewEdge(outEdges, inDeg, a, b, nodes, E);
      outEdges' := outEdges[a := outEdges[a] + {b}];
      inDeg' := inDeg[b := inDeg[b] + 1];
    } else {
      assert E + {(a, b)} == E;
    }
  }

  lemma AddNewEdge(outEdges: map<string, set<string>>, inDeg: map<string, int>, a: string, b: string,
                   nodes: set<string>, E: set<Edge>)
    requires Represents(outEdges, inDeg, nodes, E) && a in nodes && b in nodes && (a, b) !in E
    ensures Represents(outEdges[a := outEdges[a] + {b}], inDeg[b := inDeg[b] + 1], nodes, E + {(a, b)})
  {
    hide Succs, Preds;
    forall n | n in nodes
      ensures Succs(E + {(a, b)}, n) == if n == a then Succs(E, n) + {b} else Succs(E, n)
      ensures |Preds(E + {(a, b)}, n)| == if n == b then |Preds(E, n)| + 1 else |Preds(E, n)|
    {
      AddEdgeNeighbours(E, a, b, n);
      NeighbourIff(E, a, b);
    }
  }

  lemma AddEdgeNeighbours(E: set<Edge>, a: string, b: string, n: string)
    ensures Succs(E + {(a, b)}, n) == if n == a then Succs(E, n) + {b} else Succs(E, n)
    ensures Preds(E + {(a, b)}, n) == if n == b then Preds(E, n) + {a} else Preds(E, n)
  {
    var E' := E + {(a, b)};
    forall x ensures x in Succs(E', n) <==> (n, x) in E' { NeighbourIff(E', n, x); }
    forall x ensures x in Succs(E, n) <==> (n, x) in E { NeighbourIff(E, n, x); }
    forall x ensures x in Preds(E', n) <==> (x, n) in E' { NeighbourIff(E', x, n); }
    forall x ensures x in Preds(E, n) <==> (x, n) in E { NeighbourIff(E, x, n); }
  }

  lemma NeighbourIff(E: set<Edge>, a: string, b: string)
    ensures b in Succs(E, a) <==> (a, b) in E
    ensures a in Preds(E, b) <==> (a, b) in E
  {
    if (a, b) in E { assert (a, b).0 == a && (a, b).1 == b; }
  }

  lemma NothingBuilt(present: set<string>)
    ensures Represents(map id | id in present :: {}, map id | id in present :: 0, present, {})
  {
  }

  /** Builds edge sets and in-degrees from the constraints of the modules, one after the other. */
  method BuildGraph(ms: seq<Module>, present: set<string>)
    returns (outEdges: map<string, set<string>>, inDeg: map<string, int>)
    requires present == Ids(ms)
    ensures Represents(outEdges, inDeg, present, EdgesAmong(ms, present))
  {
    hide Represents, EdgesOf;
    outEdges := map id | id in present :: {};
    inDeg := map id | id in present :: 0;
    NothingBuilt(present);
    var i := 0;
    while i < |ms|
      invariant 0 <= i <= |ms|
      invariant Represents(outEdges, inDeg, present, EdgesAmong(ms[..i], present))
    {
      outEdges, inDeg := AddModule(ms[i], present, outEdges, inDeg, EdgesAmong(ms[..i], present));
      var upTo := ms[..i + 1];
      assert upTo[..|upTo| - 1] == ms[..i] && upTo[|upTo| - 1] == ms[i];
      i := i + 1;
    }
    assert ms[..i] == ms;
  }

  method AddModule(m: Module, present: set<string>, outEdges: map<string, set<string>>, inDeg: map<string, int>,
                   ghost E: set<Edge>)
    returns (outEdges': map<string, set<string>>, inDeg': map<string, int>)
    requires Represents(outEdges, inDeg, present, E) && m.id in present
    ensures Represents(outEdges', inDeg', present, E + EdgesOf(m, present))
  {
    hide Represents;
    outEdges', inDeg' := outEdges, inDeg;
    ghost var added: set<Edge> := {};
    assert E + added == E;
    var i := 0;
    while i < |m.before|
      invariant 0 <= i <= |m.before|
      invariant added == set b | b in m.before[..i] && b in present :: (m.id, b)
      invariant Represents(outEdges', inDeg', present, E + added)
    {
      var b := m.before[i];
      if b in present {
        outEdges', inDeg' := AddEdge(outEdges', inDeg', m.id, b, present, E + added);
        assert E + added + {(m.id, b)} == E + (added + {(m.id, b)});
        added := added + {(m.id, b)};
      }
      assert forall x :: x in m.before[..i + 1] <==> x in m.before[..i] || x == b;
      i := i + 1;
    }
    assert m.before[..i] == m.before;
    ghost var before := added;
    i := 0;
    while i < |m.after|
      invariant 0 <= i <= |m.after|
      invariant added == before + set a | a in m.after[..i] && a in present :: (a, m.id)
      invariant Represents(outEdges', inDeg', present, E + added)
    {
      var a := m.after[i];
      if a in present {
        outEdges', inDeg' := AddEdge(outEdges', inDeg', a, m.id, present, E + added);
        assert E + added + {(a, m.id)} == E + (added + {(a, m.id)});
        added := added + {(a, m.id)};
      }
      assert forall x :: x in m.after[..i + 1] <==> x in m.after[..i] || x == a;
      i := i + 1;
    }
    assert m.after[..i] == m.after;
    assert added == EdgesOf(m, present);
  }

  /** The in-degrees count the predecessors not taken yet. */
  ghost predicate Counts(inDeg: map<string, int>, nodes: set<string>, E: set<Edge>, taken: set<string>) {
    inDeg.Keys == nodes && forall n :: n in nodes ==> inDeg[n] == |Preds(E, n) - taken|
  }

  lemma InsertAscending(x: string, xs: seq<string>)
    requires Ascending(xs) && x !in xs
    ensures Ascending(Insert(x, xs)) && ToSet(Insert(x, xs)) == ToSet(xs) + {x}
  {
    hide Less, Insert;
    forall i, j | 0 <= i < j < |xs| ensures Leq(xs[i], xs[j]) { assert Less(xs[i], xs[j]); }
    InsertSorts(x, xs);
    InsertMembers(x, xs);
    InsertKeeps(x, xs);
    var ys := Insert(x, xs);
    AscendingDistinct(xs);
    DistinctCounts(xs);
    assert multiset(xs)[x] == 0;
    forall i, j | 0 <= i < j < |ys| ensures Less(ys[i], ys[j]) {
      assert Leq(ys[i], ys[j]);
      if ys[i] == ys[j] { TwiceCounts(ys, i, j); }
    }
  }

  /** The nodes among the successors `seen` of `next` that `next` was the last to hold back. */
  ghost function Freed(seen: set<string>, E: set<Edge>, taken: set<string>, next: string): set<string> {
    set n | n in seen && Preds(E, n) <= taken + {next}
  }

  /** The successors in `seen` have been released; the others have not. */
  ghost predicate Releasing(inDeg: map<string, int>, queue: seq<string>, nodes: set<string>, E: set<Edge>,
                            taken: set<string>, next: string, seen: set<string>)
  {
    && inDeg.Keys == nodes
    && (forall n :: n in nodes ==> inDeg[n] == |Preds(E, n) - taken| - if n in seen then 1 else 0)
    && Ascending(queue)
    && ToSet(queue) == (Ready(nodes, E, taken) - {next}) + Freed(seen, E, taken, next)
  }

  lemma ReleaseOne(inDeg: map<string, int>, queue: seq<string>, nodes: set<string>, E: set<Edge>,
                   taken: set<string>, next: string, seen: set<string>, down: string)
    requires EdgesWithin(E, nodes) && next in Ready(nodes, E, taken)
    requires down in Succs(E, next) && down !in seen && seen <= Succs(E, next)
    requires Releasing(inDeg, queue, nodes, E, taken, next, seen)
    ensures down in inDeg
    ensures var newDeg := inDeg[down] - 1;
            Releasing(inDeg[down := newDeg], if newDeg == 0 then Insert(down, queue) else queue,
                      nodes, E, taken, next, seen + {down})
  {
    hide Ready, Preds, Succs, Insert, Freed, EdgesWithin, Ascending;
    DownFacts(next, down, nodes, E, taken);
    FreedMore(seen, E, taken, next, down);
    FreedWithin(seen, E, taken, next);
    assert down !in queue by { assert down !in ToSet(queue); }
    InsertAscending(down, queue);
  }

  lemma FreedMore(seen: set<string>, E: set<Edge>, taken: set<string>, next: string, down: string)
    ensures Freed(seen + {down}, E, taken, next)
         == Freed(seen, E, taken, next) + if Preds(E, down) <= taken + {next} then {down} else {}
  {
  }

  lemma FreedWithin(seen: set<string>, E: set<Edge>, taken: set<string>, next: string)
    ensures Freed(seen, E, taken, next) <= seen && Freed({}, E, taken, next) == {}
  {
  }

  lemma ReleasingStart(inDeg: map<string, int>, queue: seq<string>, nodes: set<string>, E: set<Edge>,
                       taken: set<string>, next: string)
    requires Counts(inDeg, nodes, E, taken)
    requires Ascending(queue) && ToSet(queue) == Ready(nodes, E, taken) - {next}
    ensures Releasing(inDeg, queue, nodes, E, taken, next, {})
  {
    hide Ready, Preds, Freed, Ascending;
    FreedWithin({}, E, taken, next);
  }

  /** Once a node is taken, its successors have one predecessor less, and those with none left join the queue. */
  method ReleaseSuccessors(next: string, succs: set<string>, inDeg: map<string, int>, queue: seq<string>,
                           ghost nodes: set<string>, ghost E: set<Edge>, ghost taken: set<string>)
    returns (inDeg': map<string, int>, queue': seq<string>)
    requires EdgesWithin(E, nodes) && Counts(inDeg, nodes, E, taken)
    requires next in Ready(nodes, E, taken) && succs == Succs(E, next)
    requires forall n :: n in taken ==> Preds(E, n) <= taken
    requires Ascending(queue) && ToSet(queue) == Ready(nodes, E, taken) - {next}
    ensures Counts(inDeg', nodes, E, taken + {next})
    ensures Ascending(queue') && ToSet(queue') == Ready(nodes, E, taken + {next})
  {
    hide Ready, Preds, Succs, Releasing, Counts, Ascending, EdgesWithin, Insert, Ordered;
    inDeg', queue' := inDeg, queue;
    ReleasingStart(inDeg, queue, nodes, E, taken, next);
    var downs := Ordered(succs);
    OrderedAscending(succs);
    AscendingDistinct(downs);
    var i := 0;
    assert ToSet(downs[..0]) == {};
    while i < |downs|
      invariant 0 <= i <= |downs| && ToSet(downs[..i]) <= succs
      invariant Releasing(inDeg', queue', nodes, E, taken, next, ToSet(downs[..i]))
    {
      var down := downs[i];
      PrefixGrows(downs, i);
      ReleaseOne(inDeg', queue', nodes, E, taken, next, ToSet(downs[..i]), down);
      var newDeg := inDeg'[down] - 1;
      inDeg' := inDeg'[down := newDeg];
      if newDeg == 0 { queue' := Insert(down, queue'); }
      i := i + 1;
    }
    assert downs[..i] == downs;
    AllReleased(inDeg', queue', nodes, E, taken, next);
  }

  lemma PrefixGrows(xs: seq<string>, i: nat)
    requires i < |xs| && forall j, k :: 0 <= j < k < |xs| ==> xs[j] != xs[k]
    ensures ToSet(xs[..i + 1]) == ToSet(xs[..i]) + {xs[i]} && xs[i] !in ToSet(xs[..i]) && xs[i] in ToSet(xs)
  {
    assert xs[..i + 1] == xs[..i] + [xs[i]];
  }

  lemma AllReleased(inDeg: map<string, int>, queue: seq<string>, nodes: set<string>, E: set<Edge>,
                    taken: set<string>, next: string)
    requires EdgesWithin(E, nodes) && next in Ready(nodes, E, taken)
    requires forall n :: n in taken ==> Preds(E, n) <= taken
    requires Releasing(inDeg, queue, nodes, E, taken, next, Succs(E, next))
    ensures Counts(inDeg, nodes, E, taken + {next})
    ensures Ascending(queue) && ToSet(queue) == Ready(nodes, E, taken + {next})
  {
    ReadyAfter(next, nodes, E, taken);
    hide Ready, Preds, Succs;
    forall n | n in nodes ensures inDeg[n] == |Preds(E, n) - (taken + {next})| {
      NeighbourIff(E, next, n);
      CountAfter(next, n, nodes, E, taken);
    }
  }

  lemma DownFacts(next: string, down: string, nodes: set<string>, E: set<Edge>, taken: set<string>)
    requires EdgesWithin(E, nodes) && next in Ready(nodes, E, taken) && down in Succs(E, next)
    ensures down in nodes && down !in Ready(nodes, E, taken)
    ensures |Preds(E, down) - taken| - 1 == 0 <==> Preds(E, down) <= taken + {next}
  {
    NeighbourIff(E, next, down);
    assert next in Preds(E, down);
    CountAfter(next, down, nodes, E, taken);
    var left := Preds(E, down) - (taken + {next});
    assert |left| == 0 <==> left == {};
  }

  lemma CountAfter(next: string, n: string, nodes: set<string>, E: set<Edge>, taken: set<string>)
    requires next in Ready(nodes, E, taken)
    ensures |Preds(E, n) - (taken + {next})| == |Preds(E, n) - taken| - if (next, n) in E then 1 else 0
  {
    NeighbourIff(E, next, n);
    var before, after := Preds(E, n) - taken, Preds(E, n) - (taken + {next});
    assert after == before - {next};
  }

  lemma ReadyAfter(next: string, nodes: set<string>, E: set<Edge>, taken: set<string>)
    requires EdgesWithin(E, nodes) && next in Ready(nodes, E, taken)
    requires forall n :: n in taken ==> Preds(E, n) <= taken
    ensures Ready(nodes, E, taken + {next})
         == (Ready(nodes, E, taken) - {next}) + Freed(Succs(E, next), E, taken, next)
  {
    forall n ensures n in Ready(nodes, E, taken + {next})
               <==> n in (Ready(nodes, E, taken) - {next}) + Freed(Succs(E, next), E, taken, next)
    {
      NeighbourIff(E, next, n);
      if (next, n) in E { assert next in Preds(E, n); }
    }
  }

  method TopoSort(ms: seq<Module>) returns (r: Outcome)
    requires DistinctIds(ms)
    ensures r == Sorting(ms)
  {
    hide Kahn, Ready, Counts, EdgesWithin, Ascending, Preds, Succs;
    var present := Ids(ms);
    ghost var E := Edges(ms);
    EdgesAreWithin(ms);
    var ids := SortedIds(ms);
    var outEdges, inDeg := BuildGraph(ms, present);
    OrderedAscending(present);
    assert forall id :: id in ids <==> id in ToSet(ids);
    var queue := InitialQueue(ids, inDeg);
    IdleIsReady(inDeg, present, E, ToSet(queue));
    var result := TakeReady(outEdges, inDeg, queue, present, E);
    KahnProperties(present, E, {});
    CompleteIff(result, ids, present);
    if |result| != |ids| {
      r := Cycle(Without(ids, ToSet(result)));
      LeftOverOrdered(ids, result, present);
    } else {
      r := Order(result);
    }
  }

  /** The main loop: take the head of the queue and release its successors, until the queue is empty. */
  method TakeReady(outEdges: map<string, set<string>>, degrees: map<string, int>, ready: seq<string>,
                   ghost nodes: set<string>, ghost E: set<Edge>)
    returns (result: seq<string>)
    requires EdgesWithin(E, nodes) && outEdges.Keys == nodes && forall n :: n in nodes ==> outEdges[n] == Succs(E, n)
    requires Counts(degrees, nodes, E, {}) && Ascending(ready) && ToSet(ready) == Ready(nodes, E, {})
    ensures result == Kahn(nodes, E, {})
  {
    hide Kahn, Counts, EdgesWithin, Ascending, Preds, Succs;
    var inDeg, queue := degrees, ready;
    result := [];
    ghost var taken: set<string> := {};
    while queue != []
      invariant taken <= nodes && forall n :: n in taken ==> Preds(E, n) <= taken
      invariant Counts(inDeg, nodes, E, taken)
      invariant Ascending(queue) && ToSet(queue) == Ready(nodes, E, taken)
      invariant result + Kahn(nodes, E, taken) == Kahn(nodes, E, {})
      decreases nodes - taken
    {
      var next := queue[0];
      QueueHead(queue, Ready(nodes, E, taken));
      KahnStep(nodes, E, taken, result);
      queue := queue[1..];
      result := result + [next];
      inDeg, queue := ReleaseSuccessors(next, outEdges[next], inDeg, queue, nodes, E, taken);
      taken := taken + {next};
    }
    NothingReady(nodes, E, taken, result);
  }

  lemma NothingReady(nodes: set<string>, E: set<Edge>, taken: set<string>, before: seq<string>)
    requires ToSet<string>([]) == Ready(nodes, E, taken)
    ensures before + Kahn(nodes, E, taken) == before
  {
  }

  lemma KahnStep(nodes: set<string>, E: set<Edge>, taken: set<string>, before: seq<string>)
    requires Ready(nodes, E, taken) != {}
    ensures before + Kahn(nodes, E, taken)
         == before + [Least(Ready(nodes, E, taken))] + Kahn(nodes, E, taken + {Least(Ready(nodes, E, taken))})
  {
  }

  lemma QueueHead(queue: seq<string>, ready: set<string>)
    requires queue != [] && Ascending(queue) && ToSet(queue) == ready
    ensures queue[0] in ready && ready != {} && queue[0] == Least(ready)
    ensures Ascending(queue[1..]) && ToSet(queue[1..]) == ready - {queue[0]}
  {
    assert queue[0] in ToSet(queue);
    AscendingDistinct(queue);
    assert IsLeast(queue[0], ready);
    LeastUnique(queue[0], Least(ready), ready);
    assert forall x :: x in queue <==> x == queue[0] || x in queue[1..];
  }

  /** The ids of the modules, sorted. */
  method SortedIds(ms: seq<Module>) returns (ids: seq<string>)
    requires DistinctIds(ms)
    ensures ids == Ordered(Ids(ms))
  {
    var raw := seq(|ms|, i requires 0 <= i < |ms| => ms[i].id);
    SortOfDistinct(raw);
    assert ToSet(raw) == Ids(ms) by {
      forall id | id in Ids(ms) ensures id in ToSet(raw) {
        var m :| m in ms && m.id == id;
        var i :| 0 <= i < |ms| && ms[i] == m;
        assert raw[i] == id;
      }
    }
    ids := Sort(raw);
  }

  /** The ids, in order, that nothing holds back. */
  method InitialQueue(ids: seq<string>, inDeg: map<string, int>) returns (queue: seq<string>)
    requires Ascending(ids) && forall id :: id in ids ==> id in inDeg
    ensures Ascending(queue) && forall id :: id in queue <==> id in ids && inDeg[id] == 0
  {
    hide Ascending;
    queue := [];
    NothingAscending();
    var i := 0;
    while i < |ids|
      invariant 0 <= i <= |ids|
      invariant Ascending(queue) && forall id :: id in queue <==> id in ids[..i] && inDeg[id] == 0
    {
      var upTo := ids[..i + 1];
      assert upTo == ids[..i] + [ids[i]];
      if inDeg[ids[i]] == 0 {
        AscendingPrefix(ids, i);
        AppendAscending(queue, ids[i]);
        queue := queue + [ids[i]];
      }
      i := i + 1;
    }
    assert ids[..i] == ids;
  }

  lemma NothingAscending()
    ensures Ascending([]) && ToSet<string>([]) == {}
  {
  }

  lemma AppendAscending(xs: seq<string>, x: string)
    requires Ascending(xs) && forall y :: y in ToSet(xs) ==> Less(y, x)
    ensures Ascending(xs + [x]) && ToSet(xs + [x]) == ToSet(xs) + {x}
  {
    forall k | 0 <= k < |xs| ensures Less(xs[k], x) { assert xs[k] in ToSet(xs); }
  }

  lemma AscendingPrefix(ids: seq<string>, i: nat)
    requires Ascending(ids) && i < |ids|
    ensures forall x :: x in ToSet(ids[..i]) ==> Less(x, ids[i])
    ensures ToSet(ids[..i + 1]) == ToSet(ids[..i]) + {ids[i]}
  {
    assert ids[..i + 1] == ids[..i] + [ids[i]];
  }

  lemma IdleIsReady(inDeg: map<string, int>, nodes: set<string>, E: set<Edge>, idle: set<string>)
    requires inDeg.Keys == nodes && forall n :: n in nodes ==> inDeg[n] == |Preds(E, n)|
    requires forall n :: n in idle <==> n in nodes && inDeg[n] == 0
    ensures idle == Ready(nodes, E, {}) && Counts(inDeg, nodes, E, {})
  {
    assert forall n :: Preds(E, n) - {} == Preds(E, n);
    forall n ensures n in idle <==> n in Ready(nodes, E, {}) {
      if n in nodes { assert |Preds(E, n)| == 0 <==> Preds(E, n) == {}; }
    }
  }

  /** All ids were taken exactly when as many were taken as there are. */
  lemma CompleteIff(result: seq<string>, ids: seq<string>, nodes: set<string>)
    requires Distinct(result) && ToSet(result) <= nodes && ids == Ordered(nodes)
    ensures |result| == |ids| <==> ToSet(result) == nodes
  {
    OrderedAscending(nodes);
    DistinctSize(result);
    if |result| == |ids| { SameSizeSubset(ToSet(result), nodes); }
  }

  lemma {:induction false} DistinctSize(xs: seq<string>)
    requires Distinct(xs)
    ensures |ToSet(xs)| == |xs|
  {
    if xs == [] {
      assert ToSet(xs) == {};
    } else {
      DistinctSize(xs[1..]);
      assert xs == [xs[0]] + xs[1..];
      ToSetCons(xs[0], xs[1..]);
      assert xs[0] !in ToSet(xs[1..]);
    }
  }

  lemma SameSizeSubset(a: set<string>, b: set<string>)
    requires a <= b && |a| == |b|
    ensures a == b
  {
    assert |b - a| == |b| - |a|;
  }

  lemma {:induction false} WithoutMembers(xs: seq<string>, ys: set<string>)
    ensures ToSet(Without(xs, ys)) == ToSet(xs) - ys
  {
    if xs != [] {
      WithoutMembers(xs[1..], ys);
      assert xs == [xs[0]] + xs[1..];
      ToSetCons(xs[0], xs[1..]);
      ToSetCons(xs[0], Without(xs[1..], ys));
      assert [] + Without(xs[1..], ys) == Without(xs[1..], ys);
    }
  }

  lemma {:induction false} WithoutAscends(xs: seq<string>, ys: set<string>)
    requires Ascending(xs)
    ensures Ascending(Without(xs, ys))
  {
    hide Less;
    if xs != [] {
      var rest := Without(xs[1..], ys);
      WithoutAscends(xs[1..], ys);
      WithoutMembers(xs[1..], ys);
      assert [] + rest == rest;
      AscendingCons(xs, rest);
    }
  }

  lemma AscendingCons(xs: seq<string>, rest: seq<string>)
    requires xs != [] && Ascending(xs) && Ascending(rest) && ToSet(rest) <= ToSet(xs[1..])
    ensures Ascending([xs[0]] + rest)
  {
    hide Less;
    forall i | 0 <= i < |rest| ensures Less(xs[0], rest[i]) {
      assert rest[i] in ToSet(rest);
      var k :| 0 <= k < |xs[1..]| && xs[1..][k] == rest[i];
      assert Less(xs[0], xs[k + 1]);
    }
  }

  lemma LeftOverOrdered(ids: seq<string>, result: seq<string>, nodes: set<string>)
    requires ids == Ordered(nodes)
    ensures Without(ids, ToSet(result)) == Ordered(nodes - ToSet(result))
  {
    OrderedAscending(nodes);
    WithoutAscends(ids, ToSet(result));
    WithoutMembers(ids, ToSet(result));
    AscendingIsOrdered(Without(ids, ToSet(result)));
  }
}

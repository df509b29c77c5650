/**
 The order in which modules are initialised: a topological sort of the before/after constraints among the modules
 that are present, taking the lexically least module that is ready.
 */
module InitOrder {
  import opened Order
  import opened Seqs
  import opened Catalog

  type Edge = (string, string)

  // ---------------------------------------------------------------- the graph

  /** "m before b" is the edge m to b and "m after a" the edge a to m; absent modules are ignored. */
  function EdgesOf(m: Module, present: set<string>): set<Edge> {
    (set b | b in m.before && b in present :: (m.id, b)) + (set a | a in m.after && a in present :: (a, m.id))
  }

  function EdgesAmong(ms: seq<Module>, present: set<string>): set<Edge> {
    if ms == [] then {} else EdgesAmong(ms[..|ms| - 1], present) + EdgesOf(ms[|ms| - 1], present)
  }

  function Edges(ms: seq<Module>): set<Edge> { EdgesAmong(ms, Ids(ms)) }

  ghost predicate EdgesWithin(E: set<Edge>, nodes: set<string>) {
    forall e :: e in E ==> e.0 in nodes && e.1 in nodes
  }

  lemma {:induction false} EdgesAmongMembers(ms: seq<Module>, present: set<string>)
    ensures forall e :: e in EdgesAmong(ms, present) <==> exists m :: m in ms && e in EdgesOf(m, present)
    decreases |ms|
  {
    if ms != [] {
      EdgesAmongMembers(ms[..|ms| - 1], present);
      assert forall m :: m in ms <==> m in ms[..|ms| - 1] || m == ms[|ms| - 1];
    }
  }

  lemma EdgesAreWithin(ms: seq<Module>)
    ensures EdgesWithin(Edges(ms), Ids(ms))
  {
    EdgesAmongMembers(ms, Ids(ms));
  }

  lemma EdgesPermuted(ms: seq<Module>, ns: seq<Module>)
    requires Permuted(ms, ns)
    ensures Edges(ms) == Edges(ns)
  {
    PermutedMembers(ms, ns);
    EdgesAmongMembers(ms, Ids(ms));
    EdgesAmongMembers(ns, Ids(ns));
  }

  // ---------------------------------------------------------------- the sort

  function Preds(E: set<Edge>, n: string): set<string> { set e | e in E && e.1 == n :: e.0 }

  function Succs(E: set<Edge>, n: string): set<string> { set e | e in E && e.0 == n :: e.1 }

  /** The nodes not taken yet whose predecessors have all been taken. */
  function Ready(nodes: set<string>, E: set<Edge>, taken: set<string>): set<string> {
    set n | n in nodes && n !in taken && Preds(E, n) <= taken
  }

  /** Takes the least ready node, again and again. */
  function Kahn(nodes: set<string>, E: set<Edge>, taken: set<string>): seq<string>
    decreases nodes - taken
  {
    var ready := Ready(nodes, E, taken);
    if ready == {} then []
    else
      var n := Least(ready);
      assert n in nodes && n !in taken;
      [n] + Kahn(nodes, E, taken + {n})
  }

  /** The order of the modules, or the ids left over when some constraints go round in a circle. */
  datatype Outcome = Order(order: seq<string>) | Cycle(unresolved: seq<string>)

  function Sorting(ms: seq<Module>): Outcome {
    var order := Kahn(Ids(ms), Edges(ms), {});
    if ToSet(order) == Ids(ms) then Order(order) else Cycle(Ordered(Ids(ms) - ToSet(order)))
  }

  // ---------------------------------------------------------------- what the sort yields

  /** Each node of the order has its predecessors in the order, at smaller indices. */
  ghost predicate Layered(order: seq<string>, E: set<Edge>, taken: set<string>) {
    forall i :: 0 <= i < |order| ==> Preds(E, order[i]) <= taken + ToSet(order[..i])
  }

  lemma ToSetCons(x: string, xs: seq<string>)
    ensures ToSet([x] + xs) == {x} + ToSet(xs)
  {
  }

  /** The sort takes distinct nodes, each after its predecessors, until nothing is ready. */
  lemma {:induction false} KahnProperties(nodes: set<string>, E: set<Edge>, taken: set<string>)
    ensures var order := Kahn(nodes, E, taken);
            && Distinct(order) && ToSet(order) <= nodes - taken
            && Layered(order, E, taken)
            && Ready(nodes, E, taken + ToSet(order)) == {}
    decreases nodes - taken
  {
    hide Preds;
    var ready := Ready(nodes, E, taken);
    if ready != {} {
      var n := Least(ready);
      assert n in nodes && n !in taken;
      KahnProperties(nodes, E, taken + {n});
      KahnCons(n, Kahn(nodes, E, taken + {n}), nodes, E, taken);
    }
  }

  /** A node that is ready, followed by what the sort does once it has been taken. */
  lemma KahnCons(n: string, rest: seq<string>, nodes: set<string>, E: set<Edge>, taken: set<string>)
    requires n in Ready(nodes, E, taken)
    requires Distinct(rest) && ToSet(rest) <= nodes - (taken + {n}) && Layered(rest, E, taken + {n})
    requires Ready(nodes, E, taken + {n} + ToSet(rest)) == {}
    ensures Distinct([n] + rest) && ToSet([n] + rest) <= nodes - taken && Layered([n] + rest, E, taken)
    ensures Ready(nodes, E, taken + ToSet([n] + rest)) == {}
  {
    hide Preds;
    var order := [n] + rest;
    ToSetCons(n, rest);
    assert forall j :: 0 <= j < |rest| ==> rest[j] in ToSet(rest);
    forall i | 0 <= i < |order| ensures Preds(E, order[i]) <= taken + ToSet(order[..i]) {
      if i > 0 {
        assert order[..i] == [n] + rest[..i - 1];
        ToSetCons(n, rest[..i - 1]);
        assert taken + {n} + ToSet(rest[..i - 1]) == taken + ToSet(order[..i]);
      }
    }
    assert taken + {n} + ToSet(rest) == taken + ToSet(order);
  }

  /** A complete arrangement of the nodes in which every edge points forward. */
  ghost predicate IsTopological(order: seq<string>, nodes: set<string>, E: set<Edge>) {
    && Distinct(order) && ToSet(order) == nodes
    && forall i, j :: 0 <= i <= j < |order| ==> (order[j], order[i]) !in E
  }

  lemma OrderIsTopological(nodes: set<string>, E: set<Edge>)
    requires ToSet(Kahn(nodes, E, {})) == nodes
    ensures IsTopological(Kahn(nodes, E, {}), nodes, E)
  {
    KahnProperties(nodes, E, {});
    var order := Kahn(nodes, E, {});
    forall i, j | 0 <= i <= j < |order| ensures (order[j], order[i]) !in E {
      assert order[j] !in order[..i];
      assert (order[j], order[i]) in E ==> order[j] in Preds(E, order[i]);
    }
  }

  // ---------------------------------------------------------------- least among all topological orders

  /** Equal, or smaller at the first difference. */
  ghost predicate LexLeq(xs: seq<string>, ys: seq<string>) {
    xs == ys || exists k :: 0 <= k < |xs| && k < |ys| && xs[..k] == ys[..k] && Less(xs[k], ys[k])
  }

  /** At the end of a common part, the next node of any topological order is ready. */
  lemma NextIsReady(t: seq<string>, nodes: set<string>, E: set<Edge>, k: nat)
    requires IsTopological(t, nodes, E) && EdgesWithin(E, nodes) && k < |t|
    ensures t[k] in Ready(nodes, E, ToSet(t[..k]))
  {
    assert t[k] in ToSet(t);
    assert t[k] !in t[..k];
    forall p | p in Preds(E, t[k]) ensures p in ToSet(t[..k]) {
      assert (p, t[k]) in E;
      assert p in ToSet(t);
      var i :| 0 <= i < |t| && t[i] == p;
      if i < k { assert t[..k][i] == p; }
    }
  }

  lemma {:induction false} KahnLeast(t: seq<string>, nodes: set<string>, E: set<Edge>, k: nat)
    requires IsTopological(t, nodes, E) && EdgesWithin(E, nodes) && k <= |t|
    ensures LexLeq(Kahn(nodes, E, ToSet(t[..k])), t[k..])
    decreases |t| - k
  {
    hide Kahn, Ready, LexLeq, IsTopological;
    var taken := ToSet(t[..k]);
    KahnStep(nodes, E, taken);
    if k == |t| {
      NoneReadyAtEnd(t, nodes, E);
      assert t[..k] == t && t[k..] == [];
      LexLeqRefl([]);
    } else {
      NextIsReady(t, nodes, E, k);
      var n := Least(Ready(nodes, E, taken));
      var more := Kahn(nodes, E, taken + {n});
      assert t[k..] == [t[k]] + t[k + 1..];
      if n == t[k] {
        assert t[..k + 1] == t[..k] + [n];
        ToSetSnoc(t[..k], n);
        KahnLeast(t, nodes, E, k + 1);
        LexLeqCons(n, more, t[k + 1..]);
      } else {
        LexLeqHeads(n, more, t[k], t[k + 1..]);
      }
    }
  }

  lemma KahnStep(nodes: set<string>, E: set<Edge>, taken: set<string>)
    ensures var ready := Ready(nodes, E, taken);
            Kahn(nodes, E, taken)
            == if ready == {} then [] else [Least(ready)] + Kahn(nodes, E, taken + {Least(ready)})
  {
  }

  lemma NoneReadyAtEnd(t: seq<string>, nodes: set<string>, E: set<Edge>)
    requires IsTopological(t, nodes, E)
    ensures Ready(nodes, E, ToSet(t)) == {}
  {
  }

  lemma ToSetSnoc(xs: seq<string>, x: string)
    ensures ToSet(xs + [x]) == ToSet(xs) + {x}
  {
  }

  lemma LexLeqRefl(xs: seq<string>)
    ensures LexLeq(xs, xs)
  {
  }

  lemma LexLeqHeads(x: string, xs: seq<string>, y: string, ys: seq<string>)
    requires Less(x, y)
    ensures LexLeq([x] + xs, [y] + ys)
  {
    assert ([x] + xs)[..0] == ([y] + ys)[..0];
    assert ([x] + xs)[0] == x && ([y] + ys)[0] == y;
  }

  lemma LexLeqCons(x: string, xs: seq<string>, ys: seq<string>)
    requires LexLeq(xs, ys)
    ensures LexLeq([x] + xs, [x] + ys)
  {
    if xs != ys {
      var k :| 0 <= k < |xs| && k < |ys| && xs[..k] == ys[..k] && Less(xs[k], ys[k]);
      assert ([x] + xs)[..k + 1] == [x] + xs[..k] && ([x] + ys)[..k + 1] == [x] + ys[..k];
      assert ([x] + xs)[k + 1] == xs[k] && ([x] + ys)[k + 1] == ys[k];
    }
  }

  /** The order found is a topological order, and lexically the least of all. */
  lemma OrderIsLeast(ms: seq<Module>)
    requires Sorting(ms).Order?
    ensures IsTopological(Sorting(ms).order, Ids(ms), Edges(ms))
    ensures forall t :: IsTopological(t, Ids(ms), Edges(ms)) ==> LexLeq(Sorting(ms).order, t)
  {
    OrderIsTopological(Ids(ms), Edges(ms));
    EdgesAreWithin(ms);
    forall t | IsTopological(t, Ids(ms), Edges(ms)) ensures LexLeq(Sorting(ms).order, t) {
      KahnLeast(t, Ids(ms), Edges(ms), 0);
      assert t[0..] == t && ToSet(t[..0]) == {};
    }
  }

  // ---------------------------------------------------------------- cycles

  ghost predicate IsPath(p: seq<string>, E: set<Edge>) {
    p != [] && forall i :: 0 <= i < |p| - 1 ==> (p[i], p[i + 1]) in E
  }

  ghost predicate PathFromTo(p: seq<string>, E: set<Edge>, a: string, b: string) {
    IsPath(p, E) && p[0] == a && p[|p| - 1] == b
  }

  ghost predicate OnCycle(n: string, E: set<Edge>) { exists p :: |p| >= 2 && PathFromTo(p, E, n, n) }

  /** Some path leads to `n` from a node on a cycle. */
  ghost predicate BehindCycle(n: string, E: set<Edge>) {
    exists c, p :: OnCycle(c, E) && PathFromTo(p, E, c, n)
  }

  ghost predicate Acyclic(E: set<Edge>) { forall n :: !OnCycle(n, E) }

  /** Along a path that ends in the order, every node is in the order, at ever greater indices. */
  lemma {:induction false} PathInOrder(order: seq<string>, E: set<Edge>, p: seq<string>, last: nat) returns (first: nat)
    requires Distinct(order) && Layered(order, E, {})
    requires IsPath(p, E) && last < |order| && order[last] == p[|p| - 1]
    ensures first <= last && order[first] == p[0] && (|p| >= 2 ==> first < last)
    decreases |p|
  {
    if |p| == 1 {
      first := last;
    } else {
      var q := p[..|p| - 1];
      assert (p[|p| - 2], p[|p| - 1]) in E;
      assert p[|p| - 2] in Preds(E, order[last]);
      assert p[|p| - 2] in order[..last];
      var k :| 0 <= k < last && order[..last][k] == p[|p| - 2];
      assert IsPath(q, E);
      first := PathInOrder(order, E, q, k);
    }
  }

  lemma BehindCycleNotOrdered(nodes: set<string>, E: set<Edge>, n: string)
    requires BehindCycle(n, E)
    ensures n !in Kahn(nodes, E, {})
  {
    KahnProperties(nodes, E, {});
    var order := Kahn(nodes, E, {});
    if n in order {
      var c, p :| OnCycle(c, E) && PathFromTo(p, E, c, n);
      var i :| 0 <= i < |order| && order[i] == n;
      var j := PathInOrder(order, E, p, i);
      var q :| |q| >= 2 && PathFromTo(q, E, c, c);
      var k := PathInOrder(order, E, q, j);
    }
  }

  ghost predicate HasPredIn(x: string, left: set<string>, E: set<Edge>) { exists y :: y in left && (y, x) in E }

  /** A walk of any length backwards from `n` through nodes that all have a predecessor among themselves. */
  lemma {:induction false} WalkBack(left: set<string>, E: set<Edge>, n: string, length: nat) returns (p: seq<string>)
    requires n in left && forall x :: x in left ==> HasPredIn(x, left, E)
    ensures |p| == length + 1 && IsPath(p, E) && p[length] == n && forall i :: 0 <= i < |p| ==> p[i] in left
    decreases length
  {
    hide HasPredIn;
    if length == 0 {
      p := [n];
    } else {
      var q := WalkBack(left, E, n, length - 1);
      var y := PredIn(q[0], left, E);
      p := [y] + q;
    }
  }

  lemma PredIn(x: string, left: set<string>, E: set<Edge>) returns (y: string)
    requires HasPredIn(x, left, E)
    ensures y in left && (y, x) in E
  {
    y :| y in left && (y, x) in E;
  }

  /** More entries than values: one value occurs twice. */
  lemma {:induction false} Pigeonhole(xs: seq<string>, s: set<string>) returns (i: nat, j: nat)
    requires |xs| > |s| && forall k :: 0 <= k < |xs| ==> xs[k] in s
    ensures i < j < |xs| && xs[i] == xs[j]
    decreases |xs|
  {
    var front, x := xs[..|xs| - 1], xs[|xs| - 1];
    if k :| 0 <= k < |front| && front[k] == x {
      i, j := k, |xs| - 1;
    } else {
      assert forall k :: 0 <= k < |front| ==> front[k] == xs[k];
      i, j := Pigeonhole(front, s - {x});
    }
  }

  lemma LeftOverHasPred(nodes: set<string>, E: set<Edge>, x: string)
    requires EdgesWithin(E, nodes) && x in nodes - ToSet(Kahn(nodes, E, {}))
    ensures HasPredIn(x, nodes - ToSet(Kahn(nodes, E, {})), E)
  {
    KahnProperties(nodes, E, {});
    var taken := {} + ToSet(Kahn(nodes, E, {}));
    assert x !in Ready(nodes, E, taken);
    var y :| y in Preds(E, x) && y !in taken;
    assert (y, x) in E;
  }

  lemma LeftOverBehindCycle(nodes: set<string>, E: set<Edge>, n: string)
    requires EdgesWithin(E, nodes) && n in nodes && n !in Kahn(nodes, E, {})
    ensures BehindCycle(n, E)
  {
    hide HasPredIn, Kahn;
    var left := nodes - ToSet(Kahn(nodes, E, {}));
    forall x | x in left ensures HasPredIn(x, left, E) { LeftOverHasPred(nodes, E, x); }
    var p := WalkBack(left, E, n, |left|);
    var i, j := Pigeonhole(p, left);
    WalkClosesCycle(p, E, i, j);
  }

  /** A path that visits a node twice leads to its end from a cycle. */
  lemma WalkClosesCycle(p: seq<string>, E: set<Edge>, i: nat, j: nat)
    requires IsPath(p, E) && i < j < |p| && p[i] == p[j]
    ensures BehindCycle(p[|p| - 1], E)
  {
    var cycle, path := p[i..j + 1], p[i..];
    assert PathFromTo(cycle, E, p[i], p[i]);
    assert OnCycle(p[i], E);
    assert PathFromTo(path, E, p[i], p[|p| - 1]);
  }

  /** The ids reported are exactly the modules that lie on a cycle or behind one. */
  lemma UnresolvedBehindCycle(ms: seq<Module>)
    requires Sorting(ms).Cycle?
    ensures Ascending(Sorting(ms).unresolved)
    ensures forall id :: id in Sorting(ms).unresolved <==> id in Ids(ms) && BehindCycle(id, Edges(ms))
  {
    var nodes, E := Ids(ms), Edges(ms);
    var left := nodes - ToSet(Kahn(nodes, E, {}));
    OrderedAscending(left);
    EdgesAreWithin(ms);
    forall id ensures id in Ordered(left) <==> id in nodes && BehindCycle(id, E) {
      assert id in Ordered(left) <==> id in ToSet(Ordered(left));
      if id in nodes && BehindCycle(id, E) { BehindCycleNotOrdered(nodes, E, id); }
      if id in left { LeftOverBehindCycle(nodes, E, id); }
    }
  }

  /** The sort succeeds exactly when the constraints among the modules present have no cycle. */
  lemma SortsIffAcyclic(ms: seq<Module>)
    ensures Sorting(ms).Order? <==> Acyclic(Edges(ms))
  {
    var nodes, E := Ids(ms), Edges(ms);
    var order := Kahn(nodes, E, {});
    EdgesAreWithin(ms);
    KahnProperties(nodes, E, {});
    if ToSet(order) == nodes {
      forall n ensures !OnCycle(n, E) {
        if OnCycle(n, E) {
          var p :| |p| >= 2 && PathFromTo(p, E, n, n);
          assert (p[0], p[1]) in E;
          assert PathFromTo([n], E, n, n);
          assert BehindCycle(n, E);
          BehindCycleNotOrdered(nodes, E, n);
        }
      }
    } else {
      var n :| n in nodes && n !in ToSet(order);
      LeftOverBehindCycle(nodes, E, n);
    }
  }

  /** The outcome does not depend on the order in which the modules are listed. */
  lemma SortingCanonical(ms: seq<Module>, ns: seq<Module>)
    requires Permuted(ms, ns)
    ensures Sorting(ms) == Sorting(ns)
  {
    PermutedMembers(ms, ns);
    EdgesPermuted(ms, ns);
  }
}

/**
 A JavaScript Map: entries in order of first insertion. Setting a key that is present keeps its place.
 */
module JsMap {
  import opened Seqs
  import opened Wrappers

  type JsMap<K, V> = seq<(K, V)>

  function Get<K(==), V>(m: JsMap<K, V>, k: K): Option<V> {
    if m == [] then None else if m[0].0 == k then Some(m[0].1) else Get(m[1..], k)
  }

  function Put<K(==), V>(m: JsMap<K, V>, k: K, v: V): JsMap<K, V> {
    if m == [] then [(k, v)] else if m[0].0 == k then [(k, v)] + m[1..] else [m[0]] + Put(m[1..], k, v)
  }

  function KeyOf<K, V>(p: (K, V)): K { p.0 }

  ghost predicate Keyed<K, V>(m: JsMap<K, V>) { DistinctKeys(m, KeyOf) }

  lemma {:induction false} GetIsMember<K, V>(m: JsMap<K, V>, k: K, v: V)
    requires Keyed(m)
    ensures Get(m, k) == Some(v) <==> (k, v) in m
  {
    if m != [] {
      assert forall i :: 0 <= i < |m| - 1 ==> m[1..][i] == m[i + 1];
      assert forall p :: p in m <==> p == m[0] || p in m[1..];
      GetIsMember(m[1..], k, v);
      assert forall p :: p in m[1..] ==> p.0 != m[0].0;
    }
  }

  lemma {:induction false} GetPut<K, V>(m: JsMap<K, V>, k: K, v: V, k': K)
    ensures Get(Put(m, k, v), k') == if k' == k then Some(v) else Get(m, k')
  {
    if m != [] && m[0].0 != k { GetPut(m[1..], k, v, k'); }
  }

  lemma {:induction false} PutMembers<K, V>(m: JsMap<K, V>, k: K, v: V)
    ensures forall p :: p in Put(m, k, v) ==> p == (k, v) || p in m
  {
    if m != [] && m[0].0 != k { PutMembers(m[1..], k, v); }
  }

  /** Setting a key keeps the order of the keys; a key that is new comes last. */
  lemma {:induction false} PutKeepsOrder<K, V>(m: JsMap<K, V>, k: K, v: V)
    ensures MapSeq(KeyOf, Put(m, k, v))
         == if k in MapSeq(KeyOf, m) then MapSeq(KeyOf, m) else MapSeq(KeyOf, m) + [k]
  {
    hide MapSeq;
    if m == [] {
      KeysCons((k, v), []);
      NoKeys<K, V>();
    } else {
      var keys, rest := MapSeq(KeyOf, m), MapSeq(KeyOf, m[1..]);
      KeysCons(m[0], m[1..]);
      assert [m[0]] + m[1..] == m;
      if m[0].0 == k {
        KeysCons((k, v), m[1..]);
      } else {
        PutKeepsOrder(m[1..], k, v);
        KeysCons(m[0], Put(m[1..], k, v));
        assert k in keys <==> k in rest;
        assert [m[0].0] + (rest + [k]) == [m[0].0] + rest + [k];
      }
    }
  }

  lemma KeysCons<K, V>(p: (K, V), m: JsMap<K, V>)
    ensures MapSeq(KeyOf, [p] + m) == [p.0] + MapSeq(KeyOf, m)
  {
  }

  lemma NoKeys<K, V>()
    ensures MapSeq<(K, V), K>(KeyOf, []) == []
  {
  }

  lemma DistinctCons<K, V>(p: (K, V), m: JsMap<K, V>)
    requires Keyed(m) && forall q :: q in m ==> q.0 != p.0
    ensures Keyed([p] + m)
  {
  }

  lemma DistinctTail<K, V>(m: JsMap<K, V>)
    requires Keyed(m) && m != []
    ensures Keyed(m[1..]) && forall q :: q in m[1..] ==> q.0 != m[0].0
  {
    assert forall i :: 0 <= i < |m| - 1 ==> m[1..][i] == m[i + 1];
  }

  lemma {:induction false} PutKeepsDistinct<K, V>(m: JsMap<K, V>, k: K, v: V)
    requires Keyed(m)
    ensures Keyed(Put(m, k, v))
  {
    if m != [] {
      hide Keyed;
      DistinctTail(m);
      if m[0].0 == k {
        DistinctCons((k, v), m[1..]);
      } else {
        PutKeepsDistinct(m[1..], k, v);
        PutMembers(m[1..], k, v);
        DistinctCons(m[0], Put(m[1..], k, v));
      }
    }
  }
}

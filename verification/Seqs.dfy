/** Sequences: concatenating, mapping, distinct elements and keys, elements left out, permutations. */
module Seqs {
  function Concat<T>(xss: seq<seq<T>>): seq<T> {
    if xss == [] then [] else xss[0] + Concat(xss[1..])
  }

  lemma {:induction false} ConcatSnoc<T>(xss: seq<seq<T>>, xs: seq<T>)
    ensures Concat(xss + [xs]) == Concat(xss) + xs
  {
    if xss == [] {
      assert xss + [xs] == [xs] && [xs][1..] == [];
      assert Concat([xs][1..]) == [];
    } else {
      assert (xss + [xs])[1..] == xss[1..] + [xs];
      ConcatSnoc(xss[1..], xs);
      assert xss[0] + (Concat(xss[1..]) + xs) == (xss[0] + Concat(xss[1..])) + xs;
    }
  }

  function MapSeq<T, U>(f: T -> U, xs: seq<T>): (ys: seq<U>)
    ensures |ys| == |xs| && forall i :: 0 <= i < |xs| ==> ys[i] == f(xs[i])
  {
    seq(|xs|, i requires 0 <= i < |xs| => f(xs[i]))
  }

  ghost predicate Distinct<T>(xs: seq<T>) { forall i, j :: 0 <= i < j < |xs| ==> xs[i] != xs[j] }

  lemma DistinctSplits<T>(x: T, xs: seq<T>)
    ensures Distinct([x] + xs) <==> x !in xs && Distinct(xs)
  {
    var all := [x] + xs;
    assert forall i :: 0 <= i < |xs| ==> all[i + 1] == xs[i];
    if Distinct(all) {
      forall i, j | 0 <= i < j < |xs| ensures xs[i] != xs[j] { assert all[i + 1] != all[j + 1]; }
      forall i | 0 <= i < |xs| ensures xs[i] != x { assert all[0] != all[i + 1]; }
    }
  }

  ghost predicate DistinctKeys<T, K>(xs: seq<T>, key: T -> K) {
    forall i, j :: 0 <= i < j < |xs| ==> key(xs[i]) != key(xs[j])
  }

  /** The elements that are not in the set, in their order. */
  function Without<T(==)>(xs: seq<T>, ys: set<T>): seq<T> {
    if xs == [] then [] else (if xs[0] in ys then [] else [xs[0]]) + Without(xs[1..], ys)
  }

  /** The last `n` elements, or all if there are fewer. */
  function LastOf<T>(xs: seq<T>, n: nat): seq<T> { if |xs| <= n then xs else xs[|xs| - n..] }

  lemma LastOfAppend<T>(xs: seq<T>, ys: seq<T>, zs: seq<T>)
    requires ys == LastOf(xs, |ys|)
    ensures ys + zs == LastOf(xs + zs, |ys + zs|)
  {
  }

  /** A prefix that is one longer is the prefix and the next element. */
  lemma PrefixSnoc<T>(xs: seq<T>, i: nat)
    requires i < |xs|
    ensures var upTo := xs[..i + 1]; |upTo| == i + 1 && upTo[..|upTo| - 1] == xs[..i] && upTo[|upTo| - 1] == xs[i]
  {
  }

  // ---------------------------------------------------------------- permutations

  lemma SameMembers<T>(xs: seq<T>, ys: seq<T>)
    requires multiset(xs) == multiset(ys)
    ensures forall x :: x in xs <==> x in ys
  {
    assert forall x :: x in xs <==> x in multiset(xs);
    assert forall x :: x in ys <==> x in multiset(ys);
  }

  lemma TwiceCounts<T>(xs: seq<T>, i: nat, j: nat)
    requires i < j < |xs| && xs[i] == xs[j]
    ensures multiset(xs)[xs[i]] >= 2
  {
    assert xs == xs[..i] + [xs[i]] + xs[i + 1..j] + [xs[j]] + xs[j + 1..];
  }

  lemma DropOne<T>(xs: seq<T>, k: nat)
    requires k < |xs|
    ensures multiset(xs[..k] + xs[k + 1..]) == multiset(xs) - multiset{xs[k]}
  {
    assert xs == xs[..k] + [xs[k]] + xs[k + 1..];
  }

  lemma Occurrence<T>(x: T, xs: seq<T>, ys: seq<T>) returns (k: nat)
    requires multiset(xs) == multiset(ys) && x in xs
    ensures k < |ys| && ys[k] == x
  {
    assert x in multiset(xs);
    assert x in multiset(ys);
    k :| k < |ys| && ys[k] == x;
  }

  /** Of a list, the concatenation of something for each of its elements. */
  ghost predicate Additive<T(!new), U>(f: seq<T> -> seq<U>) { forall a, b :: f(a + b) == f(a) + f(b) }

  /** What is made element by element of a permuted list is a permutation of what was made of the list. */
  lemma {:induction false} AdditivePermuted<T(!new), U>(f: seq<T> -> seq<U>, xs: seq<T>, ys: seq<T>)
    requires Additive(f) && multiset(xs) == multiset(ys)
    ensures multiset(f(xs)) == multiset(f(ys))
    decreases |xs|
  {
    hide Additive;
    if xs == [] {
      assert |ys| == |multiset(ys)|;
    } else {
      var k := Occurrence(xs[0], xs, ys);
      var tail, rest := xs[..0] + xs[1..], ys[..k] + ys[k + 1..];
      DropOne(xs, 0);
      DropOne(ys, k);
      AdditivePermuted(f, tail, rest);
      AdditiveAt(f, xs, 0);
      AdditiveAt(f, ys, k);
    }
  }

  lemma AdditiveAt<T(!new), U>(f: seq<T> -> seq<U>, xs: seq<T>, k: nat)
    requires Additive(f) && k < |xs|
    ensures multiset(f(xs)) == multiset(f(xs[..k] + xs[k + 1..])) + multiset(f([xs[k]]))
  {
    assert xs == xs[..k] + ([xs[k]] + xs[k + 1..]);
    assert f(xs) == f(xs[..k]) + (f([xs[k]]) + f(xs[k + 1..]));
    assert f(xs[..k] + xs[k + 1..]) == f(xs[..k]) + f(xs[k + 1..]);
  }
}

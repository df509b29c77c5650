/**
 Strings in the order of the built-in sort, sorted sequences, and the sorted sequence of a set. Characters are
 compared by code point, which is the built-in order for all text without surrogate pairs.
 */
module Order {
  import opened Seqs

  predicate Less(a: string, b: string) {
    if b == [] then false
    else if a == [] then true
    else a[0] < b[0] || (a[0] == b[0] && Less(a[1..], b[1..]))
  }

  predicate Leq(a: string, b: string) { a == b || Less(a, b) }

  lemma {:induction false} LessIrreflexive(a: string)
    ensures !Less(a, a)
  {
    if a != [] { LessIrreflexive(a[1..]); }
  }

  lemma {:induction false} LessTransitive(a: string, b: string, c: string)
    requires Less(a, b) && Less(b, c)
    ensures Less(a, c)
  {
    if a != [] && b != [] && c != [] && a[0] == b[0] == c[0] { LessTransitive(a[1..], b[1..], c[1..]); }
  }

  lemma {:induction false} LessTotal(a: string, b: string)
    ensures a == b || Less(a, b) || Less(b, a)
  {
    if a != [] && b != [] && a[0] == b[0] {
      LessTotal(a[1..], b[1..]);
      assert a == [a[0]] + a[1..] && b == [b[0]] + b[1..];
    }
  }

  lemma LessAsymmetric(a: string, b: string)
    requires Less(a, b)
    ensures a != b && !Less(b, a)
  {
    LessIrreflexive(a);
    if Less(b, a) { LessTransitive(a, b, a); }
  }

  /** At some index the first string has a smaller character, and before that the two agree. */
  ghost predicate SmallerAt(a: string, b: string, k: int) {
    0 <= k < |a| && k < |b| && a[..k] == b[..k] && a[k] < b[k]
  }

  lemma SameFront(a: string, b: string, k: int)
    requires SmallerAt(a, b, k)
    ensures k > 0 ==> a[0] == b[0]
  {
    if k > 0 { assert a[..k][0] == a[0] && b[..k][0] == b[0]; }
  }

  /** A string comes before another exactly if it is a proper prefix of it, or smaller where the two first differ. */
  lemma {:induction false} LessIff(a: string, b: string)
    ensures Less(a, b) <==> a < b || exists k :: SmallerAt(a, b, k)
  {
    if a != [] && b != [] {
      if a[0] == b[0] {
        LessIff(a[1..], b[1..]);
        assert a == [a[0]] + a[1..] && b == [b[0]] + b[1..];
        if k :| SmallerAt(a[1..], b[1..], k) {
          assert a[..k + 1] == [a[0]] + a[1..][..k] && b[..k + 1] == [b[0]] + b[1..][..k];
          assert SmallerAt(a, b, k + 1);
        }
        if k :| SmallerAt(a, b, k) {
          assert k > 0 && a[1..][..k - 1] == a[..k][1..] && b[1..][..k - 1] == b[..k][1..];
          assert SmallerAt(a[1..], b[1..], k - 1);
        }
      } else {
        assert a[..0] == b[..0];
        assert a[0] < b[0] ==> SmallerAt(a, b, 0);
        forall k | SmallerAt(a, b, k) ensures k == 0 { SameFront(a, b, k); }
      }
    }
  }

  // ---------------------------------------------------------------- sorting

  ghost predicate Sorted(xs: seq<string>) { forall i, j :: 0 <= i < j < |xs| ==> Leq(xs[i], xs[j]) }

  ghost predicate Ascending(xs: seq<string>) { forall i, j :: 0 <= i < j < |xs| ==> Less(xs[i], xs[j]) }

  function Insert(x: string, xs: seq<string>): seq<string> {
    if xs == [] then [x] else if Less(xs[0], x) then [xs[0]] + Insert(x, xs[1..]) else [x] + xs
  }

  function Sort(xs: seq<string>): seq<string> { if xs == [] then [] else Insert(xs[0], Sort(xs[1..])) }

  lemma {:induction false} InsertSorts(x: string, xs: seq<string>)
    requires Sorted(xs)
    ensures Sorted(Insert(x, xs))
  {
    hide Less, Leq;
    if xs == [] {
    } else if Less(xs[0], x) {
      InsertSorts(x, xs[1..]);
      var rest := Insert(x, xs[1..]);
      InsertMembers(x, xs[1..]);
      forall j | 0 <= j < |rest| ensures Leq(xs[0], rest[j]) {
        assert rest[j] in rest;
        if rest[j] != x {
          var k :| 0 <= k < |xs[1..]| && xs[1..][k] == rest[j];
          assert Leq(xs[0], xs[k + 1]);
        } else {
          LessIsLeq(xs[0], x);
        }
      }
      SortedCons(xs[0], rest);
    } else {
      NotLess(xs[0], x);
      forall j | 0 <= j < |xs| ensures Leq(x, xs[j]) {
        if j > 0 {
          assert Leq(xs[0], xs[j]);
          LeqTransitive(x, xs[0], xs[j]);
        }
      }
      SortedCons(x, xs);
    }
  }

  lemma LessIsLeq(a: string, b: string)
    requires Less(a, b)
    ensures Leq(a, b)
  {
  }

  lemma NotLess(a: string, b: string)
    requires !Less(a, b)
    ensures Leq(b, a)
  {
    LessTotal(a, b);
  }

  lemma SortedCons(x: string, xs: seq<string>)
    requires Sorted(xs) && forall j :: 0 <= j < |xs| ==> Leq(x, xs[j])
    ensures Sorted([x] + xs)
  {
    hide Leq;
    var all := [x] + xs;
    forall i, j | 0 <= i < j < |all| ensures Leq(all[i], all[j]) {
      assert all[j] == xs[j - 1];
      if i > 0 { assert all[i] == xs[i - 1]; }
    }
  }

  lemma {:induction false} InsertMembers(x: string, xs: seq<string>)
    ensures forall y :: y in Insert(x, xs) <==> y == x || y in xs
  {
    hide Less;
    if xs != [] {
      InsertMembers(x, xs[1..]);
      assert forall y :: y in xs <==> y == xs[0] || y in xs[1..];
    }
  }

  lemma {:induction false} InsertKeeps(x: string, xs: seq<string>)
    ensures multiset(Insert(x, xs)) == multiset(xs) + multiset{x}
  {
    hide Less;
    if xs != [] {
      InsertKeeps(x, xs[1..]);
      assert xs == [xs[0]] + xs[1..];
    }
  }

  lemma LeqTransitive(a: string, b: string, c: string)
    requires Leq(a, b) && Leq(b, c)
    ensures Leq(a, c)
  {
    if Less(a, b) && Less(b, c) { LessTransitive(a, b, c); }
  }

  lemma NothingSorted()
    ensures Sorted([])
  {
  }

  lemma {:induction false} SortSorts(xs: seq<string>)
    ensures Sorted(Sort(xs)) && multiset(Sort(xs)) == multiset(xs) && |Sort(xs)| == |xs|
  {
    hide Insert, Sorted;
    if xs == [] {
      NothingSorted();
    } else {
      SortSorts(xs[1..]);
      InsertSorts(xs[0], Sort(xs[1..]));
      InsertKeeps(xs[0], Sort(xs[1..]));
      assert xs == [xs[0]] + xs[1..];
    }
    assert |Sort(xs)| == |multiset(Sort(xs))| && |xs| == |multiset(xs)|;
  }

  /** There is only one sorted arrangement. */
  lemma {:induction false} SortedUnique(xs: seq<string>, ys: seq<string>)
    requires Sorted(xs) && Sorted(ys) && multiset(xs) == multiset(ys)
    ensures xs == ys
    decreases |xs|
  {
    assert |xs| == |multiset(xs)| && |ys| == |multiset(ys)|;
    if xs != [] {
      HeadIsLeast(xs, ys);
      HeadIsLeast(ys, xs);
      if xs[0] != ys[0] { LessAsymmetric(xs[0], ys[0]); }
      assert xs == [xs[0]] + xs[1..] && ys == [ys[0]] + ys[1..];
      assert multiset(xs[1..]) == multiset(xs) - multiset{xs[0]};
      assert multiset(ys[1..]) == multiset(ys) - multiset{ys[0]};
      SortedUnique(xs[1..], ys[1..]);
    }
  }

  lemma HeadIsLeast(xs: seq<string>, ys: seq<string>)
    requires Sorted(xs) && multiset(xs) == multiset(ys) && xs != [] && ys != []
    ensures Leq(xs[0], ys[0])
  {
    assert ys[0] in multiset(ys);
    assert ys[0] in multiset(xs);
    var k :| 0 <= k < |xs| && xs[k] == ys[0];
  }

  /** Sorting forgets the order of its input. */
  lemma SortCanonical(xs: seq<string>, ys: seq<string>)
    requires multiset(xs) == multiset(ys)
    ensures Sort(xs) == Sort(ys)
  {
    SortSorts(xs);
    SortSorts(ys);
    SortedUnique(Sort(xs), Sort(ys));
  }

  // ---------------------------------------------------------------- sets

  predicate IsLeast(m: string, s: set<string>) { m in s && forall x :: x in s ==> Leq(m, x) }

  lemma {:induction false} LeastExists(s: set<string>)
    requires s != {}
    ensures exists m :: IsLeast(m, s)
    decreases |s|
  {
    var x :| x in s;
    if s == {x} {
      assert IsLeast(x, s);
    } else {
      LeastExists(s - {x});
      var m :| IsLeast(m, s - {x});
      LessTotal(m, x);
      if Leq(m, x) {
        assert IsLeast(m, s);
      } else {
        forall y | y in s ensures Leq(x, y) { if y != x { LeqTransitive(x, m, y); } }
        assert IsLeast(x, s);
      }
    }
  }

  lemma LeastUnique(m: string, n: string, s: set<string>)
    requires IsLeast(m, s) && IsLeast(n, s)
    ensures m == n
  {
    if m != n { LessAsymmetric(m, n); }
  }

  function Least(s: set<string>): (m: string)
    requires s != {}
    ensures IsLeast(m, s)
  {
    LeastExists(s);
    assert forall m, n :: IsLeast(m, s) && IsLeast(n, s) ==> m == n by {
      forall m, n | IsLeast(m, s) && IsLeast(n, s) ensures m == n { LeastUnique(m, n, s); }
    }
    var m :| IsLeast(m, s);
    m
  }

  function ToSet<T>(xs: seq<T>): set<T> { set x | x in xs }

  /** The elements of a set in ascending order. */
  function Ordered(s: set<string>): (xs: seq<string>)
    ensures ToSet(xs) == s
    decreases |s|
  {
    if s == {} then []
    else
      var m := Least(s);
      var rest := Ordered(s - {m});
      assert ToSet([m] + rest) == {m} + ToSet(rest);
      [m] + rest
  }

  lemma {:induction false} OrderedAscending(s: set<string>)
    ensures Ascending(Ordered(s)) && |Ordered(s)| == |s|
    decreases |s|
  {
    if s != {} {
      var m := Least(s);
      var rest := Ordered(s - {m});
      OrderedAscending(s - {m});
      forall j | 0 <= j < |rest| ensures Less(m, rest[j]) { assert rest[j] in ToSet(rest); }
    }
  }

  lemma AscendingDistinct(xs: seq<string>)
    requires Ascending(xs)
    ensures forall i, j :: 0 <= i < j < |xs| ==> xs[i] != xs[j]
  {
    forall i, j | 0 <= i < j < |xs| ensures xs[i] != xs[j] { LessIrreflexive(xs[i]); }
  }

  /** An ascending sequence is the ordered sequence of its elements. */
  lemma {:induction false} AscendingIsOrdered(xs: seq<string>)
    requires Ascending(xs)
    ensures xs == Ordered(ToSet(xs))
    decreases |xs|
  {
    var s := ToSet(xs);
    if xs == [] {
      assert s == {};
    } else {
      var tail := xs[1..];
      AscendingDistinct(xs);
      assert xs[0] in s;
      assert IsLeast(xs[0], s);
      LeastUnique(xs[0], Least(s), s);
      assert ToSet(tail) == s - {xs[0]} by {
        assert forall x :: x in xs <==> x == xs[0] || x in tail;
        assert xs[0] !in tail;
      }
      AscendingIsOrdered(tail);
    }
  }

  /** Sorting distinct strings in any order yields their set in order. */
  lemma SortOfDistinct(xs: seq<string>)
    requires forall i, j :: 0 <= i < j < |xs| ==> xs[i] != xs[j]
    ensures Sort(xs) == Ordered(ToSet(xs))
  {
    SortSorts(xs);
    var ys := Sort(xs);
    assert forall x :: x in xs <==> x in multiset(xs);
    assert forall x :: x in ys <==> x in multiset(ys);
    assert ToSet(ys) == ToSet(xs);
    DistinctCounts(xs);
    forall i, j | 0 <= i < j < |ys| ensures Less(ys[i], ys[j]) {
      if ys[i] == ys[j] { TwiceCounts(ys, i, j); }
    }
    AscendingIsOrdered(ys);
  }

  lemma {:induction false} DistinctCounts(xs: seq<string>)
    requires forall i, j :: 0 <= i < j < |xs| ==> xs[i] != xs[j]
    ensures forall x :: multiset(xs)[x] <= 1
  {
    if xs != [] {
      assert xs == [xs[0]] + xs[1..];
      assert xs[0] !in xs[1..];
      DistinctCounts(xs[1..]);
    }
  }

  // ---------------------------------------------------------------- sorting by a key

  function InsertBy<T>(x: T, xs: seq<T>, key: T -> string): seq<T> {
    if xs == [] then [x] else if Less(key(xs[0]), key(x)) then [xs[0]] + InsertBy(x, xs[1..], key) else [x] + xs
  }

  function SortBy<T>(xs: seq<T>, key: T -> string): seq<T> {
    if xs == [] then [] else InsertBy(xs[0], SortBy(xs[1..], key), key)
  }

  lemma {:induction false} InsertByKeys<T>(x: T, xs: seq<T>, key: T -> string)
    ensures MapSeq(key, InsertBy(x, xs, key)) == Insert(key(x), MapSeq(key, xs))
  {
    if xs != [] {
      assert MapSeq(key, xs)[1..] == MapSeq(key, xs[1..]);
      InsertByKeys(x, xs[1..], key);
    }
  }

  lemma {:induction false} SortByKeys<T>(xs: seq<T>, key: T -> string)
    ensures MapSeq(key, SortBy(xs, key)) == Sort(MapSeq(key, xs))
  {
    if xs != [] {
      SortByKeys(xs[1..], key);
      assert MapSeq(key, xs)[1..] == MapSeq(key, xs[1..]);
      InsertByKeys(xs[0], SortBy(xs[1..], key), key);
    }
  }

  lemma {:induction false} InsertByMembers<T>(x: T, xs: seq<T>, key: T -> string)
    ensures forall y :: y in InsertBy(x, xs, key) <==> y == x || y in xs
  {
    if xs != [] {
      InsertByMembers(x, xs[1..], key);
      assert forall y :: y in xs <==> y == xs[0] || y in xs[1..];
    }
  }

  lemma {:induction false} InsertByKeeps<T>(x: T, xs: seq<T>, key: T -> string)
    ensures multiset(InsertBy(x, xs, key)) == multiset(xs) + multiset{x}
  {
    if xs != [] {
      InsertByKeeps(x, xs[1..], key);
      assert xs == [xs[0]] + xs[1..];
    }
  }

  lemma {:induction false} SortByKeeps<T>(xs: seq<T>, key: T -> string)
    ensures multiset(SortBy(xs, key)) == multiset(xs)
  {
    if xs != [] {
      SortByKeeps(xs[1..], key);
      InsertByKeeps(xs[0], SortBy(xs[1..], key), key);
      assert xs == [xs[0]] + xs[1..];
    }
  }

  lemma {:induction false} SortByMembers<T>(xs: seq<T>, key: T -> string)
    ensures forall y :: y in SortBy(xs, key) <==> y in xs
  {
    if xs != [] {
      SortByMembers(xs[1..], key);
      InsertByMembers(xs[0], SortBy(xs[1..], key), key);
      assert forall y :: y in xs <==> y == xs[0] || y in xs[1..];
    }
  }

  lemma {:induction false} KeysOnce<T>(xs: seq<T>, key: T -> string, x: T)
    requires DistinctKeys(xs, key)
    ensures multiset(xs)[x] <= 1
  {
    if xs != [] {
      assert xs == [xs[0]] + xs[1..];
      assert forall i :: 0 <= i < |xs| - 1 ==> xs[1..][i] == xs[i + 1];
      KeysOnce(xs[1..], key, x);
      assert xs[0] !in xs[1..];
    }
  }

  /** Keys stay distinct when the list is permuted. */
  lemma DistinctKeysPermuted<T>(xs: seq<T>, ys: seq<T>, key: T -> string)
    requires multiset(xs) == multiset(ys) && DistinctKeys(xs, key)
    ensures DistinctKeys(ys, key)
  {
    forall i, j | 0 <= i < j < |ys| ensures key(ys[i]) != key(ys[j]) {
      var k := Occurrence(ys[i], ys, xs);
      var l := Occurrence(ys[j], ys, xs);
      if k == l {
        TwiceCounts(ys, i, j);
        KeysOnce(xs, key, ys[i]);
        assert false;
      } else if k < l {
        assert key(xs[k]) != key(xs[l]);
      } else {
        assert key(xs[l]) != key(xs[k]);
      }
    }
  }

  /** The elements with one key. */
  function Select<T>(xs: seq<T>, key: T -> string, k: string): seq<T> {
    if xs == [] then [] else (if key(xs[0]) == k then [xs[0]] else []) + Select(xs[1..], key, k)
  }

  lemma SelectCons<T>(x: T, xs: seq<T>, key: T -> string, k: string)
    ensures Select([x] + xs, key, k) == (if key(x) == k then [x] else []) + Select(xs, key, k)
  {
    assert ([x] + xs)[1..] == xs;
  }

  lemma SelectNothing<T>(key: T -> string, k: string)
    ensures Select([], key, k) == []
  {
  }

  lemma InsertedIntoNothing<T>(x: T, key: T -> string)
    ensures InsertBy(x, [], key) == [x]
  {
  }

  lemma InsertedLater<T>(x: T, xs: seq<T>, key: T -> string)
    requires xs != [] && Less(key(xs[0]), key(x))
    ensures InsertBy(x, xs, key) == [xs[0]] + InsertBy(x, xs[1..], key)
  {
  }

  lemma InsertedFirst<T>(x: T, xs: seq<T>, key: T -> string)
    requires xs != [] && !Less(key(xs[0]), key(x))
    ensures InsertBy(x, xs, key) == [x] + xs
  {
  }

  lemma {:induction false} SelectInsert<T>(x: T, xs: seq<T>, key: T -> string, k: string)
    ensures Select(InsertBy(x, xs, key), key, k) == (if key(x) == k then [x] else []) + Select(xs, key, k)
  {
    hide Select, Less, InsertBy;
    if xs == [] {
      InsertedIntoNothing(x, key);
      SelectCons(x, [], key, k);
      assert [x] + [] == [x];
      SelectNothing(key, k);
    } else if Less(key(xs[0]), key(x)) {
      InsertedLater(x, xs, key);
      LessAsymmetric(key(xs[0]), key(x));
      SelectInsert(x, xs[1..], key, k);
      SelectCons(xs[0], InsertBy(x, xs[1..], key), key, k);
      SelectCons(xs[0], xs[1..], key, k);
      assert [xs[0]] + xs[1..] == xs;
    } else {
      InsertedFirst(x, xs, key);
      SelectCons(x, xs, key, k);
    }
  }

  /** The sort is stable: elements with the same key keep their order. */
  lemma {:induction false} SortByStable<T>(xs: seq<T>, key: T -> string, k: string)
    ensures Select(SortBy(xs, key), key, k) == Select(xs, key, k)
  {
    if xs != [] {
      SortByStable(xs[1..], key, k);
      SelectInsert(xs[0], SortBy(xs[1..], key), key, k);
    }
  }

  /** Lists with ascending keys and the same elements are equal. */
  lemma AscendingKeysEqual<T>(s: seq<T>, t: seq<T>, key: T -> string)
    requires Ascending(MapSeq(key, s)) && Ascending(MapSeq(key, t)) && forall x :: x in s <==> x in t
    ensures s == t
  {
    hide Ascending, Ordered;
    AscendingIsOrdered(MapSeq(key, s));
    AscendingIsOrdered(MapSeq(key, t));
    KeySet(s, key);
    KeySet(t, key);
    assert (set x | x in s :: key(x)) == (set x | x in t :: key(x));
    assert |s| == |MapSeq(key, s)| == |t|;
    AscendingDistinct(MapSeq(key, s));
    forall i | 0 <= i < |s| ensures s[i] == t[i] {
      assert key(s[i]) == MapSeq(key, s)[i] == MapSeq(key, t)[i] == key(t[i]);
      assert t[i] in s;
      var j :| 0 <= j < |s| && s[j] == t[i];
      assert MapSeq(key, s)[j] == MapSeq(key, s)[i];
    }
  }

  lemma KeySet<T>(xs: seq<T>, key: T -> string)
    ensures ToSet(MapSeq(key, xs)) == set x | x in xs :: key(x)
  {
    forall x | x in xs ensures key(x) in ToSet(MapSeq(key, xs)) {
      var i :| 0 <= i < |xs| && xs[i] == x;
      assert MapSeq(key, xs)[i] == key(x);
    }
  }

  /** Sorted by key, with distinct keys: the keys ascend. */
  lemma SortByAscends<T>(xs: seq<T>, key: T -> string)
    requires DistinctKeys(xs, key) || DistinctKeys(SortBy(xs, key), key)
    ensures Ascending(MapSeq(key, SortBy(xs, key)))
  {
    var ks := MapSeq(key, xs);
    SortByKeys(xs, key);
    if DistinctKeys(xs, key) {
      SortOfDistinct(ks);
      OrderedAscending(ToSet(ks));
    } else {
      SortSorts(ks);
      var sorted := MapSeq(key, SortBy(xs, key));
      forall i, j | 0 <= i < j < |sorted| ensures Less(sorted[i], sorted[j]) {
        assert Leq(sorted[i], sorted[j]);
      }
    }
  }

  /** With distinct keys, sorting by key forgets the order of its input. */
  lemma SortByCanonical<T>(xs: seq<T>, ys: seq<T>, key: T -> string)
    requires DistinctKeys(xs, key) || DistinctKeys(SortBy(xs, key), key)
    requires DistinctKeys(ys, key) || DistinctKeys(SortBy(ys, key), key)
    requires forall x :: x in xs <==> x in ys
    ensures SortBy(xs, key) == SortBy(ys, key)
  {
    SortByMembers(xs, key);
    SortByMembers(ys, key);
    SortByAscends(xs, key);
    SortByAscends(ys, key);
    AscendingKeysEqual(SortBy(xs, key), SortBy(ys, key), key);
  }
}

/** Splitting, joining and trimming of strings. */
module Text {
  import opened Wrappers

  /** The characters that `trim` removes. */
  predicate IsSpace(c: char) {
    c == ' ' || '\t' <= c <= '\r' || c == '\U{00A0}' || c == '\U{1680}' || '\U{2000}' <= c <= '\U{200A}'
    || c == '\U{2028}' || c == '\U{2029}' || c == '\U{202F}' || c == '\U{205F}' || c == '\U{3000}' || c == '\U{FEFF}'
  }

  predicate StartsClean(s: string) { s == [] || !IsSpace(s[0]) }

  predicate EndsClean(s: string) { s == [] || !IsSpace(s[|s| - 1]) }

  predicate Trimmed(s: string) { StartsClean(s) && EndsClean(s) }

  function TrimStart(s: string): (r: string)
    ensures StartsClean(r) && (StartsClean(s) ==> r == s) && (EndsClean(s) ==> EndsClean(r))
    ensures forall c :: c in r ==> c in s
  {
    if s != [] && IsSpace(s[0]) then TrimStart(s[1..]) else s
  }

  function TrimEnd(s: string): (r: string)
    ensures EndsClean(r) && (EndsClean(s) ==> r == s) && r <= s
  {
    if s != [] && IsSpace(s[|s| - 1]) then TrimEnd(s[..|s| - 1]) else s
  }

  function Trim(s: string): (r: string)
    ensures Trimmed(r) && (Trimmed(s) ==> r == s)
    ensures forall c :: c in r ==> c in s
  {
    var r := TrimStart(TrimEnd(s));
    assert forall c :: c in TrimEnd(s) ==> c in s;
    r
  }

  /** The code points of white space and line ends. */
  lemma SpacesAre(c: char)
    ensures IsSpace(c) <==>
              c as int in {9, 10, 11, 12, 13, 32, 160, 5760, 8192, 8193, 8194, 8195, 8196, 8197, 8198, 8199, 8200, 8201,
                           8202, 8232, 8233, 8239, 8287, 12288, 65279}
  {
  }

  predicate Blank(s: string) { forall c :: c in s ==> IsSpace(c) }

  lemma {:induction false} TrimStartTakes(s: string) returns (front: string)
    ensures s == front + TrimStart(s) && Blank(front)
  {
    hide IsSpace;
    front := "";
    if s != [] && IsSpace(s[0]) {
      var more := TrimStartTakes(s[1..]);
      front := [s[0]] + more;
      assert TrimStart(s) == TrimStart(s[1..]);
      hide TrimStart;
      Rejoined(s[0], more, TrimStart(s[1..]));
      assert s == [s[0]] + s[1..];
    }
  }

  lemma Rejoined(c: char, s: string, t: string)
    ensures [c] + (s + t) == [c] + s + t
  {
  }

  lemma {:induction false} TrimEndTakes(s: string) returns (back: string)
    ensures s == TrimEnd(s) + back && Blank(back)
  {
    hide IsSpace;
    back := "";
    if s != [] && IsSpace(s[|s| - 1]) {
      var more := TrimEndTakes(s[..|s| - 1]);
      back := more + [s[|s| - 1]];
      assert s == s[..|s| - 1] + [s[|s| - 1]];
    }
  }

  /** Trimming takes white space off both ends, and nothing else. */
  lemma TrimTakes(s: string) returns (front: string, back: string)
    ensures s == front + Trim(s) + back && Blank(front) && Blank(back)
  {
    back := TrimEndTakes(s);
    front := TrimStartTakes(TrimEnd(s));
  }

  /** What is left is determined by that. */
  lemma TrimIs(front: string, s: string, back: string)
    requires Blank(front) && Trimmed(s) && Blank(back)
    ensures Trim(front + s + back) == s
  {
    if s == "" {
      BlankTrims(front + s + back);
    } else {
      TrimEndBlank(front + s, back);
      TrimStartBlank(front, s);
    }
  }

  lemma {:induction false} BlankTrims(s: string)
    requires Blank(s)
    ensures TrimEnd(s) == "" && Trim(s) == ""
  {
    if s != "" {
      assert s[|s| - 1] in s;
      BlankTrims(s[..|s| - 1]);
    }
  }

  lemma {:induction false} TrimEndBlank(s: string, back: string)
    requires s != "" && EndsClean(s) && Blank(back)
    ensures TrimEnd(s + back) == s
    decreases |back|
  {
    if back == "" {
      assert s + back == s;
    } else {
      assert back[|back| - 1] in back;
      assert (s + back)[..|s + back| - 1] == s + back[..|back| - 1];
      TrimEndBlank(s, back[..|back| - 1]);
    }
  }

  lemma {:induction false} TrimStartBlank(front: string, s: string)
    requires Blank(front) && StartsClean(s)
    ensures TrimStart(front + s) == s
  {
    if front == "" {
      assert front + s == s;
    } else {
      assert front[0] in front;
      assert (front + s)[1..] == front[1..] + s;
      TrimStartBlank(front[1..], s);
    }
  }

  function Split(s: string, sep: char): (parts: seq<string>)
    ensures |parts| >= 1 && forall p :: p in parts ==> sep !in p
  {
    if s == [] then [[]]
    else
      var rest := Split(s[1..], sep);
      if s[0] == sep then [[]] + rest else [[s[0]] + rest[0]] + rest[1..]
  }

  function Join(parts: seq<string>, sep: string): string {
    if parts == [] then [] else if |parts| == 1 then parts[0] else parts[0] + sep + Join(parts[1..], sep)
  }

  lemma SplitCons(c: char, s: string, sep: char)
    ensures Split([c] + s, sep)
         == if c == sep then [[]] + Split(s, sep) else [[c] + Split(s, sep)[0]] + Split(s, sep)[1..]
  {
    assert ([c] + s)[1..] == s;
  }

  lemma SplitNothing(sep: char)
    ensures Split("", sep) == [""]
  {
  }

  /** Text split at a separator is what was split before it and what is split after it. */
  lemma {:induction false} SplitConcat(a: string, sep: char, b: string)
    ensures Split(a + [sep] + b, sep) == Split(a, sep) + Split(b, sep)
  {
    hide Split;
    if a == [] {
      assert [] + [sep] + b == [sep] + b;
      SplitCons(sep, b, sep);
      SplitNothing(sep);
    } else {
      var rest, first, second := a[1..] + [sep] + b, Split(a[1..], sep), Split(b, sep);
      assert a + [sep] + b == [a[0]] + rest && a == [a[0]] + a[1..];
      SplitConcat(a[1..], sep, b);
      SplitCons(a[0], rest, sep);
      SplitCons(a[0], a[1..], sep);
      if a[0] == sep {
        assert [[]] + (first + second) == ([[]] + first) + second;
      } else {
        ConcatHead([a[0]] + first[0], first, second);
      }
    }
  }

  lemma ConcatHead(head: string, first: seq<string>, second: seq<string>)
    requires first != []
    ensures (first + second)[0] == first[0]
    ensures [head] + (first + second)[1..] == ([head] + first[1..]) + second
  {
    assert (first + second)[1..] == first[1..] + second;
  }

  lemma ConcatCons(c: char, s: string, t: string)
    ensures [c] + (s + t) == ([c] + s) + t
  {
  }

  /** Text without a separator goes to the first part of what follows it. */
  lemma {:induction false} SplitPrefix(a: string, sep: char, b: string)
    requires sep !in a
    ensures Split(a + b, sep) == [a + Split(b, sep)[0]] + Split(b, sep)[1..]
  {
    hide Split;
    if a == [] {
      assert a + b == b && a + Split(b, sep)[0] == Split(b, sep)[0];
    } else {
      var c, tail, first, rest := a[0], a[1..], Split(b, sep)[0], Split(b, sep)[1..];
      assert c in a && sep !in tail;
      SplitPrefix(tail, sep, b);
      SplitCons(c, tail + b, sep);
      ConcatCons(c, tail, b);
      ConcatCons(c, tail, first);
      assert [c] + tail == a;
      assert ([tail + first] + rest)[1..] == rest;
    }
  }

  /** Space at the end is taken off behind a character that is none. */
  lemma {:induction false} TrimEndBehind(a: string, b: string)
    requires a != "" && !IsSpace(a[|a| - 1])
    ensures TrimEnd(a + b) == a + TrimEnd(b)
    decreases |b|
  {
    if b == [] {
      assert a + b == a;
    } else {
      assert (a + b)[..|a + b| - 1] == a + b[..|b| - 1];
      TrimEndBehind(a, b[..|b| - 1]);
    }
  }

  lemma {:induction false} SplitNone(a: string, sep: char)
    requires sep !in a
    ensures Split(a, sep) == [a]
  {
    if a != [] {
      SplitNone(a[1..], sep);
      assert [a[0]] + a[1..] == a;
    }
  }

  lemma SplitAtFirst(a: string, sep: char, b: string)
    requires sep !in a
    ensures Split(a + [sep] + b, sep) == [a] + Split(b, sep)
  {
    hide Split;
    SplitConcat(a, sep, b);
    SplitNone(a, sep);
  }

  /** Splitting undoes joining when no part holds the separator. */
  lemma {:induction false} SplitJoin(parts: seq<string>, sep: char)
    requires parts != [] && forall p :: p in parts ==> sep !in p
    ensures Split(Join(parts, [sep]), sep) == parts
  {
    hide Split;
    if |parts| == 1 {
      SplitNone(parts[0], sep);
    } else {
      assert forall p :: p in parts[1..] ==> p in parts;
      SplitJoin(parts[1..], sep);
      assert [parts[0]] + parts[1..] == parts;
      SplitAtFirst(parts[0], sep, Join(parts[1..], [sep]));
    }
  }

  /** Joining undoes splitting, for every text. */
  lemma {:induction false} JoinSplit(s: string, sep: char)
    ensures Join(Split(s, sep), [sep]) == s
  {
    if s != [] {
      JoinSplit(s[1..], sep);
      var rest := Split(s[1..], sep);
      assert s == [s[0]] + s[1..];
      if s[0] == sep {
        assert ([[]] + rest)[1..] == rest;
      } else {
        var parts := [[s[0]] + rest[0]] + rest[1..];
        assert parts[1..] == rest[1..];
        if |rest| == 1 {
          assert Join(parts, [sep]) == [s[0]] + rest[0];
        } else {
          assert Join(parts, [sep]) == [s[0]] + (rest[0] + [sep] + Join(rest[1..], [sep]));
        }
      }
    }
  }

  function IndexOf(s: string, c: char): (r: Option<nat>)
    ensures r.Some? ==> r.value < |s| && s[r.value] == c && c !in s[..r.value]
    ensures r.None? ==> c !in s
  {
    if s == [] then None
    else if s[0] == c then Some(0)
    else
      match IndexOf(s[1..], c)
      case None => None
      case Some(i) =>
        assert s[..i + 1] == [s[0]] + s[1..][..i];
        Some(i + 1)
  }

  lemma {:induction false} IndexOfIs(s: string, c: char, i: nat)
    requires i < |s| && s[i] == c && c !in s[..i]
    ensures IndexOf(s, c) == Some(i)
  {
    if i > 0 {
      assert s[0] in s[..i];
      assert s[1..][..i - 1] == s[..i][1..];
      IndexOfIs(s[1..], c, i - 1);
    }
  }
}

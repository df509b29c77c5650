/**
 The manifest as text: one `key=value` line per key, sorted by key; the lenient parser that validation uses; and
 the comparison of the parsed keys with the keys recorded in the provenance.
 */
module ManifestText {
  import opened Wrappers
  import opened Order
  import opened Seqs
  import opened Text
  import opened MergeManifest

  // ---------------------------------------------------------------- printing

  function Line(k: string, v: string): string { k + "=" + v }

  function LinesOf(m: Manifest, keys: seq<string>): (lines: seq<string>)
    requires forall k :: k in keys ==> k in m
    ensures |lines| == |keys| && forall i :: 0 <= i < |keys| ==> lines[i] == Line(keys[i], m[keys[i]])
  {
    seq(|keys|, i requires 0 <= i < |keys| => Line(keys[i], m[keys[i]]))
  }

  lemma OrderedKeys(m: Manifest)
    ensures forall k :: k in Ordered(m.Keys) <==> k in m
  {
    assert forall k :: k in Ordered(m.Keys) <==> k in ToSet(Ordered(m.Keys));
  }

  function Print(m: Manifest): string {
    OrderedKeys(m);
    Join(LinesOf(m, Ordered(m.Keys)), "\n") + "\n"
  }

  /** One line for each entry, key and value around an equals sign, in ascending order of keys; a newline ends each. */
  lemma PrintIs(m: Manifest) returns (keys: seq<string>)
    ensures ToSet(keys) == m.Keys && Ascending(keys) && |keys| == |m|
    ensures m != map[] ==> Print(m) == Concat(EndedLines(m, keys))
    ensures m == map[] ==> Print(m) == "\n"
  {
    keys := Ordered(m.Keys);
    OrderedAscending(m.Keys);
    OrderedKeys(m);
    JoinedLines(m, keys);
    if m == map[] { assert keys == []; } else { assert keys != []; }
  }

  function EndedLines(m: Manifest, keys: seq<string>): (lines: seq<string>)
    requires forall k :: k in keys ==> k in m
    ensures |lines| == |keys| && forall i :: 0 <= i < |keys| ==> lines[i] == keys[i] + "=" + m[keys[i]] + "\n"
  {
    seq(|keys|, i requires 0 <= i < |keys| => keys[i] + "=" + m[keys[i]] + "\n")
  }

  lemma {:induction false} JoinedLines(m: Manifest, keys: seq<string>)
    requires forall k :: k in keys ==> k in m
    ensures Join(LinesOf(m, keys), "\n") + "\n" == if keys == [] then "\n" else Concat(EndedLines(m, keys))
  {
    if keys != [] {
      var tail := keys[1..];
      JoinedLines(m, tail);
      var lines, ended, first := LinesOf(m, keys), EndedLines(m, keys), Line(keys[0], m[keys[0]]);
      assert lines[1..] == LinesOf(m, tail) && ended[1..] == EndedLines(m, tail);
      if tail == [] {
        assert Concat(ended) == ended[0] + [];
      } else {
        assert first + "\n" + Join(lines[1..], "\n") + "\n" == (first + "\n") + (Join(lines[1..], "\n") + "\n");
      }
    }
  }

  // ---------------------------------------------------------------- parsing

  /** What one line contributes: nothing if it is blank, a comment, or has no '='. */
  function ParseLine(raw: string): Option<(string, string)> {
    var line := Trim(raw);
    if line == "" || line[0] == '#' then None
    else
      match IndexOf(line, '=')
      case None => None
      case Some(eq) => Some((Trim(line[..eq]), line[eq + 1..]))
  }

  function ParseLines(lines: seq<string>): Manifest {
    if lines == [] then map[]
    else
      var out := ParseLines(lines[..|lines| - 1]);
      match ParseLine(lines[|lines| - 1])
      case None => out
      case Some((k, v)) => out[k := v]
  }

  function Parse(text: string): Manifest { ParseLines(Split(text, '\n')) }

  method ParseManifest(text: string) returns (out: Manifest)
    ensures out == Parse(text)
  {
    var lines := Split(text, '\n');
    out := map[];
    var i := 0;
    while i < |lines|
      invariant 0 <= i <= |lines|
      invariant out == ParseLines(lines[..i])
    {
      var upTo := lines[..i + 1];
      assert upTo[..|upTo| - 1] == lines[..i] && upTo[|upTo| - 1] == lines[i];
      match ParseLine(lines[i]) {
        case None =>
        case Some(entry) => out := out[entry.0 := entry.1];
      }
      i := i + 1;
    }
    assert lines[..i] == lines;
  }

  // ---------------------------------------------------------------- what a line means

  /** A line is skipped exactly if it is blank, or starts with '#' behind its leading space, or has no '='. */
  lemma SkippedIff(raw: string)
    ensures ParseLine(raw) == None <==> Trim(raw) == "" || Trim(raw)[0] == '#' || '=' !in raw
  {
    var front, back := TrimTakes(raw);
    assert forall c :: c in raw <==> c in front || c in Trim(raw) || c in back;
    NoSpaceIsEquals();
  }

  lemma NoSpaceIsEquals()
    ensures !IsSpace('=')
  {
  }

  /**
   Space around a line and between key and '=' does not matter, and the key ends at the first '='. Space behind '='
   belongs to the value.
   */
  lemma AnyLineParses(a: string, k: string, b: string, v: string, c: string)
    requires Blank(a) && Blank(b) && Blank(c) && CleanKey(k) && EndsClean(v)
    ensures ParseLine(a + (k + b + "=" + v) + c) == Some((k, v))
  {
    hide IsSpace, Trim, IndexOf;
    if k == "" {
      assert a + (k + b + "=" + v) + c == (a + b) + ("=" + v) + c;
      KeylessLine(a + b, v, c);
    } else {
      var line := k + b + "=" + v;
      KeyedLine(k, b, v);
      TrimIs(a, line, c);
      assert "" + k + b == k + b;
      TrimIs("", k, b);
      assert line[0] == k[0];
    }
  }

  lemma KeylessLine(a: string, v: string, c: string)
    requires Blank(a) && Blank(c) && EndsClean(v)
    ensures ParseLine(a + ("=" + v) + c) == Some(("", v))
  {
    hide IsSpace;
    NoSpaceIsEquals();
    var line := "=" + v;
    TrimIs(a, line, c);
    assert line[..0] == "" && line[1..] == v;
    IndexOfIs(line, '=', 0);
    assert Trim("") == "";
  }

  lemma KeyedLine(k: string, b: string, v: string)
    requires k != "" && Blank(b) && CleanKey(k) && EndsClean(v)
    ensures var line := k + b + "=" + v;
            && Trimmed(line) && IndexOf(line, '=') == Some(|k + b|)
            && line[..|k + b|] == k + b && line[|k + b| + 1..] == v
  {
    hide IsSpace;
    NoSpaceIsEquals();
    var line, at := k + b + "=" + v, |k + b|;
    assert line == k + b + ['='] + v;
    assert line[at] == '=' && line[..at] == k + b && line[at + 1..] == v;
    assert line[|line| - 1] == if v == "" then '=' else v[|v| - 1];
    IndexOfIs(line, '=', at);
  }

  /** Of several lines with one key the last one counts. */
  lemma {:induction false} LastLineWins(lines: seq<string>, i: nat, k: string, v: string)
    requires i < |lines| && ParseLine(lines[i]) == Some((k, v))
    requires forall j :: i < j < |lines| ==> ParseLine(lines[j]).None? || ParseLine(lines[j]).value.0 != k
    ensures k in ParseLines(lines) && ParseLines(lines)[k] == v
    decreases |lines|
  {
    hide ParseLine;
    if i < |lines| - 1 {
      var front := lines[..|lines| - 1];
      assert forall j :: 0 <= j < |front| ==> front[j] == lines[j];
      LastLineWins(front, i, k, v);
    }
  }

  // ---------------------------------------------------------------- round trip

  /** Keys and values that a line can carry. */
  predicate CleanKey(k: string) { '=' !in k && '\n' !in k && Trimmed(k) && (k != "" ==> k[0] != '#') }

  predicate CleanValue(v: string) { '\n' !in v && EndsClean(v) }

  predicate CleanEntry(k: string, v: string) { CleanKey(k) && CleanValue(v) }

  /** Whatever is parsed is clean. */
  lemma ParsedIsClean(raw: string)
    requires '\n' !in raw
    ensures ParseLine(raw).Some? ==> CleanEntry(ParseLine(raw).value.0, ParseLine(raw).value.1)
  {
    var line := Trim(raw);
    if line != "" && line[0] != '#' && IndexOf(line, '=').Some? {
      var eq := IndexOf(line, '=').value;
      var k, v := line[..eq], line[eq + 1..];
      assert StartsClean(k);
      assert v != "" ==> v[|v| - 1] == line[|line| - 1];
      TrimOfStartsClean(k);
    }
  }

  lemma TrimOfStartsClean(s: string)
    requires StartsClean(s)
    ensures Trim(s) <= s
  {
    assert StartsClean(TrimEnd(s));
  }

  lemma CleanLineParses(k: string, v: string)
    requires CleanEntry(k, v)
    ensures ParseLine(Line(k, v)) == Some((k, v)) && '\n' !in Line(k, v)
  {
    var line := Line(k, v);
    assert line == k + ['='] + v;
    assert line[0] == if k == "" then '=' else k[0];
    assert line[|line| - 1] == if v == "" then '=' else v[|v| - 1];
    assert Trim(line) == line;
    assert line[|k|] == '=' && line[..|k|] == k && line[|k| + 1..] == v;
    IndexOfIs(line, '=', |k|);
  }

  lemma {:induction false} ParseLinesClean(lines: seq<string>)
    requires forall l :: l in lines ==> '\n' !in l
    ensures forall k :: k in ParseLines(lines) ==> CleanEntry(k, ParseLines(lines)[k])
    decreases |lines|
  {
    if lines != [] {
      ParseLinesClean(lines[..|lines| - 1]);
      ParsedIsClean(lines[|lines| - 1]);
    }
  }

  lemma {:induction false} ParseOfLines(m: Manifest, keys: seq<string>)
    requires forall i, j :: 0 <= i < j < |keys| ==> keys[i] != keys[j]
    requires forall k :: k in keys ==> k in m && CleanEntry(k, m[k])
    ensures ParseLines(LinesOf(m, keys)) == map k | k in keys :: m[k]
    decreases |keys|
  {
    hide CleanEntry, ParseLine, Line;
    if keys != [] {
      var front, k := keys[..|keys| - 1], keys[|keys| - 1];
      ParseOfLines(m, front);
      CleanLineParses(k, m[k]);
      LastLineParses(m, front, k);
      assert front + [k] == keys;
      RestrictSnoc(m, front, k);
    } else {
      assert LinesOf(m, keys) == [];
    }
  }

  lemma RestrictSnoc(m: Manifest, front: seq<string>, k: string)
    requires k in m && forall x :: x in front ==> x in m
    ensures (map x | x in front + [k] :: m[x]) == (map x | x in front :: m[x])[k := m[k]]
  {
    assert forall x :: x in front + [k] <==> x in front || x == k;
  }

  lemma LastLineParses(m: Manifest, front: seq<string>, k: string)
    requires (forall x :: x in front ==> x in m) && k in m && ParseLine(Line(k, m[k])) == Some((k, m[k]))
    ensures ParseLines(LinesOf(m, front + [k])) == ParseLines(LinesOf(m, front))[k := m[k]]
  {
    hide ParseLine, Line;
    var lines := LinesOf(m, front + [k]);
    assert lines[..|lines| - 1] == LinesOf(m, front) && lines[|lines| - 1] == Line(k, m[k]);
  }

  /** A trailing newline adds an empty line, which is skipped. */
  lemma ParseOfJoined(lines: seq<string>)
    requires forall l :: l in lines ==> '\n' !in l
    ensures Parse(Join(lines, "\n") + "\n") == ParseLines(lines)
  {
    var text := Join(lines, "\n") + "\n";
    if lines == [] {
      assert text == [] + ['\n'] + [];
      SplitAtFirst([], '\n', []);
      assert Split(text, '\n') == ["", ""];
      assert ["", ""][..1] == [""] && [""][..0] == [];
    } else {
      JoinTrailing(lines);
      var all := lines + [""];
      SplitJoin(all, '\n');
      assert all[..|all| - 1] == lines && all[|all| - 1] == "";
    }
  }

  lemma {:induction false} JoinTrailing(lines: seq<string>)
    requires lines != []
    ensures Join(lines + [""], "\n") == Join(lines, "\n") + "\n"
  {
    var all := lines + [""];
    assert all[0] == lines[0] && all[1..] == lines[1..] + [""];
    if |lines| == 1 {
      assert all[1..] == [""];
      assert Join(all, "\n") == lines[0] + "\n" + "";
    } else {
      JoinTrailing(lines[1..]);
      assert lines[0] + "\n" + (Join(lines[1..], "\n") + "\n") == (lines[0] + "\n" + Join(lines[1..], "\n")) + "\n";
    }
  }

  lemma CleanLines(m: Manifest, keys: seq<string>)
    requires forall k :: k in keys ==> k in m && CleanEntry(k, m[k])
    ensures forall l :: l in LinesOf(m, keys) ==> '\n' !in l
  {
    hide CleanEntry, Line, ParseLine;
    forall l | l in LinesOf(m, keys) ensures '\n' !in l {
      var i :| 0 <= i < |keys| && LinesOf(m, keys)[i] == l;
      assert keys[i] in keys;
      CleanLineParses(keys[i], m[keys[i]]);
    }
  }

  lemma CleanParsesBack(m: Manifest)
    requires forall k :: k in m ==> CleanEntry(k, m[k])
    ensures Parse(Print(m)) == m
  {
    hide CleanEntry, ParseLine, ParseLines, LinesOf, Parse, Join, Ordered, Ascending;
    var keys := Ordered(m.Keys);
    OrderedKeys(m);
    OrderedAscending(m.Keys);
    AscendingDistinct(keys);
    CleanLines(m, keys);
    ParseOfJoined(LinesOf(m, keys));
    ParseOfLines(m, keys);
  }

  lemma ParsedIsAllClean(text: string)
    ensures forall k :: k in Parse(text) ==> CleanEntry(k, Parse(text)[k])
  {
    hide CleanEntry, ParseLines, Split;
    ParseLinesClean(Split(text, '\n'));
  }

  /** Printing and parsing returns the manifest exactly when every entry is clean. */
  lemma PrintParseIff(m: Manifest)
    ensures Parse(Print(m)) == m <==> forall k :: k in m ==> CleanEntry(k, m[k])
  {
    hide CleanEntry, Parse, Print;
    ParsedIsAllClean(Print(m));
    if forall k :: k in m ==> CleanEntry(k, m[k]) { CleanParsesBack(m); }
  }

  // ---------------------------------------------------------------- drift

  /** Keys recorded but not in the manifest, and keys in the manifest but not recorded; both sorted. */
  function MissingInManifest(recorded: seq<string>, parsed: Manifest): seq<string> {
    Sort(Without(recorded, parsed.Keys))
  }

  function ExtraInManifest(recorded: seq<string>, parsed: Manifest): seq<string> {
    Sort(Without(Ordered(parsed.Keys), ToSet(recorded)))
  }

  lemma {:induction false} WithoutEmptyIff(xs: seq<string>, ys: set<string>)
    ensures Sort(Without(xs, ys)) == [] <==> ToSet(xs) <= ys
  {
    SortSorts(Without(xs, ys));
    if xs != [] {
      WithoutEmptyIff(xs[1..], ys);
      SortSorts(Without(xs[1..], ys));
      assert forall x :: x in xs <==> x == xs[0] || x in xs[1..];
      assert ToSet(xs) == {xs[0]} + ToSet(xs[1..]);
    }
  }

  /** No drift is reported exactly when the recorded keys are the manifest's keys. */
  lemma NoDriftIff(recorded: seq<string>, parsed: Manifest)
    ensures MissingInManifest(recorded, parsed) == [] && ExtraInManifest(recorded, parsed) == []
       <==> ToSet(recorded) == parsed.Keys
  {
    WithoutEmptyIff(recorded, parsed.Keys);
    WithoutEmptyIff(Ordered(parsed.Keys), ToSet(recorded));
  }

  lemma {:induction false} WithoutIs(xs: seq<string>, ys: set<string>)
    ensures forall x :: multiset(Without(xs, ys))[x] == if x in ys then 0 else multiset(xs)[x]
  {
    if xs != [] {
      WithoutIs(xs[1..], ys);
      assert xs == [xs[0]] + xs[1..];
    }
  }

  /** The recorded keys that the manifest lacks, each as often as recorded, sorted. */
  lemma MissingAre(recorded: seq<string>, parsed: Manifest)
    ensures var missing := MissingInManifest(recorded, parsed);
            && Sorted(missing)
            && forall k :: multiset(missing)[k] == if k in parsed then 0 else multiset(recorded)[k]
  {
    SortSorts(Without(recorded, parsed.Keys));
    WithoutIs(recorded, parsed.Keys);
  }

  /** The keys of the manifest that are not recorded, each once, in ascending order. */
  lemma ExtraAre(recorded: seq<string>, parsed: Manifest)
    ensures var extra := ExtraInManifest(recorded, parsed);
            && Ascending(extra) && forall k :: k in extra <==> k in parsed && k !in recorded
  {
    var keys := Ordered(parsed.Keys);
    var extra := Without(keys, ToSet(recorded));
    WithoutIs(keys, ToSet(recorded));
    OrderedAscending(parsed.Keys);
    AscendingDistinct(keys);
    DistinctCounts(keys);
    OrderedKeys(parsed);
    SortSorts(extra);
    forall k ensures k in Sort(extra) <==> k in parsed && k !in recorded {
      assert k in Sort(extra) <==> multiset(Sort(extra))[k] > 0;
      assert k in keys <==> multiset(keys)[k] > 0;
    }
    forall i, j | 0 <= i < j < |Sort(extra)| ensures Less(Sort(extra)[i], Sort(extra)[j]) {
      if Sort(extra)[i] == Sort(extra)[j] { TwiceCounts(Sort(extra), i, j); }
    }
  }

  // ---------------------------------------------------------------- drift of any build

  predicate ParsesTo(line: string, k: string) { ParseLine(line).Some? && ParseLine(line).value.0 == k }

  lemma {:induction false} ParsedKeys(lines: seq<string>)
    ensures forall k :: k in ParseLines(lines) <==> exists l :: l in lines && ParsesTo(l, k)
    decreases |lines|
  {
    hide ParseLine;
    if lines != [] {
      var front, last := lines[..|lines| - 1], lines[|lines| - 1];
      ParsedKeys(front);
      assert forall k :: k in ParseLines(lines) <==> k in ParseLines(front) || ParsesTo(last, k);
      assert forall l :: l in lines <==> l in front || l == last;
    }
  }

  /** The lines of the printed text are those of the entries and the empty line at the end. */
  lemma {:induction false} LinesOfText(lines: seq<string>)
    ensures forall l :: l in Split(Join(lines, "\n") + "\n", '\n')
                   <==> l == "" || exists x :: x in lines && l in Split(x, '\n')
  {
    hide Split;
    assert Split("", '\n') == [""] by { SplitNone("", '\n'); }
    if |lines| <= 1 {
      var x := Join(lines, "\n");
      SplitConcat(x, '\n', "");
      assert x + ['\n'] + "" == x + "\n";
    } else {
      var rest := Join(lines[1..], "\n") + "\n";
      LinesOfText(lines[1..]);
      SplitConcat(lines[0], '\n', rest);
      assert Join(lines, "\n") + "\n" == lines[0] + ['\n'] + rest;
      assert forall x :: x in lines <==> x == lines[0] || x in lines[1..];
    }
  }

  /** The first line of an entry with a clean key parses to that key, whatever the value. */
  lemma FirstLineParses(k: string, w: string)
    requires CleanKey(k)
    ensures ParsesTo(Line(k, w), k)
  {
    var head := k + "=";
    assert Line(k, w) == head + w && head[|head| - 1] == '=';
    TrimEndBehind(head, w);
    var line := head + TrimEnd(w);
    assert line[0] == if k == "" then '=' else k[0];
    assert Trim(Line(k, w)) == line;
    assert line[|k|] == '=' && line[..|k|] == k;
    IndexOfIs(line, '=', |k|);
  }

  /** The lines of a value behind its first parse to nothing, or to keys that the manifest has anyway. */
  ghost predicate AddsNoKey(m: Manifest, v: string) {
    forall l, k :: l in Split(v, '\n')[1..] && ParsesTo(l, k) ==> k in m
  }

  lemma EntryLines(k: string, v: string)
    requires CleanKey(k)
    ensures Split(Line(k, v), '\n') == [Line(k, Split(v, '\n')[0])] + Split(v, '\n')[1..]
  {
    SplitPrefix(k + "=", '\n', v);
  }

  /** The keys parsed from the printed manifest, if its keys are clean: its own and those that values add. */
  lemma KeysOfPrinted(m: Manifest)
    requires forall k :: k in m ==> CleanKey(k)
    ensures m.Keys <= Parse(Print(m)).Keys
    ensures Parse(Print(m)).Keys <= m.Keys <==> forall k :: k in m ==> AddsNoKey(m, m[k])
  {
    hide ParseLine, CleanKey, Line, Split, ParseLines, Join, Ordered;
    var keys := Ordered(m.Keys);
    OrderedKeys(m);
    var lines := LinesOf(m, keys);
    LinesOfText(lines);
    ParsedKeys(Split(Print(m), '\n'));
    assert NothingOn("") by { EmptyLine(); }
    forall k | k in m
      ensures Line(k, m[k]) in lines
      ensures k in Parse(Print(m))
    {
      var i :| 0 <= i < |keys| && keys[i] == k;
      assert lines[i] == Line(k, m[k]);
      var first := Line(k, Split(m[k], '\n')[0]);
      EntryLines(k, m[k]);
      FirstLineParses(k, Split(m[k], '\n')[0]);
      assert first in Split(Line(k, m[k]), '\n');
      assert ParsesTo(first, k);
    }
    if forall k :: k in m ==> AddsNoKey(m, m[k]) {
      forall j | j in Parse(Print(m)) ensures j in m { ParsedKeyIsOwn(m, j); }
    }
    if Parse(Print(m)).Keys <= m.Keys {
      forall k | k in m ensures AddsNoKey(m, m[k]) {
        forall l, j | l in Split(m[k], '\n')[1..] && ParsesTo(l, j) ensures j in m {
          EntryLines(k, m[k]);
          assert l in Split(Line(k, m[k]), '\n');
        }
      }
    }
  }

  predicate NothingOn(line: string) { ParseLine(line).None? }

  lemma EmptyLine()
    ensures NothingOn("")
  {
  }

  lemma ParsedKeyIsOwn(m: Manifest, j: string)
    requires (forall k :: k in m ==> CleanKey(k) && AddsNoKey(m, m[k])) && j in Parse(Print(m))
    ensures j in m
  {
    hide ParseLine, CleanKey, Line, Split, ParseLines, Join, Ordered;
    var keys := Ordered(m.Keys);
    OrderedKeys(m);
    var lines := LinesOf(m, keys);
    LinesOfText(lines);
    ParsedKeys(Split(Print(m), '\n'));
    EmptyLine();
    var l :| l in Split(Print(m), '\n') && ParsesTo(l, j);
    var x :| x in lines && l in Split(x, '\n');
    var i :| 0 <= i < |keys| && lines[i] == x;
    var k := keys[i];
    assert k in keys;
    EntryLines(k, m[k]);
    if l == Line(k, Split(m[k], '\n')[0]) { FirstLineParses(k, Split(m[k], '\n')[0]); }
  }

  /**
   A build shows no drift against the keys it records exactly when all its keys are clean and no value has a further
   line that reads as an entry for a key that the manifest lacks.
   */
  lemma NoDriftAfterBuildIff(m: Manifest)
    ensures MissingInManifest(Ordered(m.Keys), Parse(Print(m))) == []
            && ExtraInManifest(Ordered(m.Keys), Parse(Print(m))) == []
       <==> forall k :: k in m ==> CleanKey(k) && AddsNoKey(m, m[k])
  {
    hide CleanKey, AddsNoKey, Parse, Print, MissingInManifest, ExtraInManifest, Ordered;
    var parsed := Parse(Print(m));
    NoDriftIff(Ordered(m.Keys), parsed);
    ParsedIsAllClean(Print(m));
    forall k | k in parsed ensures CleanKey(k) { assert CleanEntry(k, parsed[k]); }
    if forall k :: k in m ==> CleanKey(k) { KeysOfPrinted(m); }
  }

  /** A space at the end of a value is lost. */
  lemma TrailingSpaceLost()
    ensures Parse(Print(map["title" := "a "])) != map["title" := "a "]
  {
    hide Parse, Print, CleanKey;
    var m := map["title" := "a "];
    PrintParseIff(m);
    assert "title" in m && !CleanEntry("title", m["title"]);
  }

  /** A second line of a value can add a key. */
  lemma SecondLineDrifts()
    ensures var m := map["title" := "a\nb=c"];
            !(MissingInManifest(Ordered(m.Keys), Parse(Print(m))) == []
              && ExtraInManifest(Ordered(m.Keys), Parse(Print(m))) == [])
  {
    hide Parse, Print, ExtraInManifest, MissingInManifest, Ordered, Split, ParseLine, CleanKey;
    var m := map["title" := "a\nb=c"];
    NoDriftAfterBuildIff(m);
    SecondLineReads();
    assert "title" in m && "b" !in m && !AddsNoKey(m, m["title"]);
  }

  lemma SecondLineReads()
    ensures "b=c" in Split("a\nb=c", '\n')[1..] && ParsesTo("b=c", "b")
  {
    hide Split, ParseLine;
    SplitAtFirst("a", '\n', "b=c");
    SplitNone("b=c", '\n');
    assert "a" + ['\n'] + "b=c" == "a\nb=c" && ["a", "b=c"][1..] == ["b=c"] && Line("b", "c") == "b=c";
    CleanLineParses("b", "c");
  }
}

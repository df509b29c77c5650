/**
 The names of the subs in the dispatch file. Scope and phase of a hook are identifiers, and the name runs their words
 together; when two hooks get the same name is decided here for all hooks.
 */
module SubNames {
  import opened Catalog
  import opened Seqs
  import opened Text
  import opened Wiring

  predicate IsLower(c: char) { 'a' <= c <= 'z' }

  predicate IsCapital(c: char) { 'A' <= c <= 'Z' }

  predicate IsDigit(c: char) { '0' <= c <= '9' }

  predicate IsAlnum(c: char) { IsLower(c) || IsCapital(c) || IsDigit(c) }

  function Upper(c: char): char { if IsLower(c) then c - 'a' + 'A' else c }

  function Lower(c: char): char { if IsCapital(c) then c - 'A' + 'a' else c }

  /** Every run of letters and digits with its first letter in upper case, all joined. */
  function Pascal(s: string, atStart: bool): string {
    if s == [] then []
    else if !IsAlnum(s[0]) then Pascal(s[1..], true)
    else [if atStart then Upper(s[0]) else s[0]] + Pascal(s[1..], false)
  }

  /** Scope and phase, separated as the words inside them are. */
  function Phrase(h: Hook): string { h.scope + " " + h.phase }

  function DispatchName(h: Hook): string { "Modules_On" + Pascal(Phrase(h), true) }

  /** What the schema of templates admits as scope or phase. */
  predicate IsIdentifier(s: string) {
    s != "" && !IsDigit(s[0]) && forall c :: c in s ==> IsAlnum(c) || c == '_'
  }

  // ---------------------------------------------------------------- humps

  function Prepend(c: char, humps: seq<string>): seq<string>
    requires humps != []
  {
    [[c] + humps[0]] + humps[1..]
  }

  /**
   A phrase cut into humps, in lower case where they begin: a hump begins at a capital, and at a small letter that
   starts a word. What comes before the first hump stands in front; a word that starts with a digit begins none.
   */
  function Humps(s: string, atStart: bool): (humps: seq<string>)
    ensures humps != []
  {
    if s == [] then [""]
    else if !IsAlnum(s[0]) then Humps(s[1..], true)
    else
      var more := Humps(s[1..], false);
      if IsCapital(s[0]) || (atStart && IsLower(s[0])) then [""] + Prepend(Lower(s[0]), more) else Prepend(s[0], more)
  }

  function HumpsOf(h: Hook): seq<string> { Humps(Phrase(h), true) }

  /** The name cut at its capitals. */
  function Cut(name: string): (humps: seq<string>)
    ensures humps != []
  {
    if name == [] then [""]
    else if IsCapital(name[0]) then [""] + Prepend(Lower(name[0]), Cut(name[1..]))
    else Prepend(name[0], Cut(name[1..]))
  }

  lemma {:induction false} PascalCuts(s: string, atStart: bool)
    ensures Cut(Pascal(s, atStart)) == Humps(s, atStart)
  {
    if s == [] {
    } else if !IsAlnum(s[0]) {
      PascalCuts(s[1..], true);
    } else {
      PascalCuts(s[1..], false);
      var c := if atStart then Upper(s[0]) else s[0];
      assert Pascal(s, atStart)[1..] == Pascal(s[1..], false);
    }
  }

  /** The humps joined again, each with a capital. */
  function Joined(humps: seq<string>): string {
    if humps == [] then ""
    else (if humps[0] == "" then "" else [Upper(humps[0][0])] + humps[0][1..]) + Joined(humps[1..])
  }

  lemma {:induction false} CutJoins(name: string)
    ensures name == Cut(name)[0] + Joined(Cut(name)[1..])
  {
    hide Joined, Cut;
    NothingJoined();
    if name == [] {
      CutNothing();
    } else {
      var more := Cut(name[1..]);
      CutJoins(name[1..]);
      CutStep(name);
      assert name == [name[0]] + name[1..];
      if IsCapital(name[0]) {
        JoinedPrepend(name[0], more);
      } else {
        Behind(name[0], more[0], Joined(more[1..]));
      }
    }
  }

  lemma CutNothing()
    ensures Cut("")[0] == "" && Cut("")[1..] == []
  {
  }

  lemma CutStep(name: string)
    requires name != []
    ensures var more := Cut(name[1..]);
            if IsCapital(name[0]) then Cut(name)[0] == "" && Cut(name)[1..] == Prepend(Lower(name[0]), more)
            else Cut(name)[0] == [name[0]] + more[0] && Cut(name)[1..] == more[1..]
  {
    hide Lower;
    var humps := Prepend(Lower(name[0]), Cut(name[1..]));
    assert ([""] + humps)[1..] == humps;
  }

  lemma Behind(c: char, first: string, rest: string)
    ensures [c] + first + rest == [c] + (first + rest)
  {
  }

  lemma NothingJoined()
    ensures Joined([]) == ""
  {
  }

  lemma JoinedPrepend(c: char, humps: seq<string>)
    requires IsCapital(c) && humps != []
    ensures Joined(Prepend(Lower(c), humps)) == [c] + (humps[0] + Joined(humps[1..]))
  {
    assert Prepend(Lower(c), humps)[1..] == humps[1..];
  }

  /** Two hooks get the same sub name exactly when their phrases have the same humps. */
  lemma SameNameIffSameHumps(g: Hook, h: Hook)
    ensures DispatchName(g) == DispatchName(h) <==> HumpsOf(g) == HumpsOf(h)
  {
    PascalCuts(Phrase(g), true);
    PascalCuts(Phrase(h), true);
    CutJoins(Pascal(Phrase(g), true));
    CutJoins(Pascal(Phrase(h), true));
    assert DispatchName(g)[|"Modules_On"|..] == Pascal(Phrase(g), true);
    assert DispatchName(h)[|"Modules_On"|..] == Pascal(Phrase(h), true);
  }

  // ---------------------------------------------------------------- identifiers in small letters

  /** The words of an identifier. */
  function Words(s: string): seq<string> { Without(Split(s, '_'), {""}) }

  predicate StartsWithLetter(word: string) { word != "" ==> IsLower(word[0]) }

  /** An identifier of small letters, digits and underscores in which no word starts with a digit. */
  predicate IsSnake(s: string) {
    && (forall c :: c in s ==> IsLower(c) || IsDigit(c) || c == '_')
    && (forall word :: word in Split(s, '_') ==> StartsWithLetter(word))
  }

  /** Small letters and digits only. */
  predicate IsPlain(s: string) { IsSnake(s) && s != "" && '_' !in s }

  predicate Small(s: string) { forall c :: c in s ==> IsLower(c) || IsDigit(c) || c == '_' }

  lemma WithoutCons<T>(x: T, xs: seq<T>, ys: set<T>)
    ensures Without([x] + xs, ys) == (if x in ys then [] else [x]) + Without(xs, ys)
  {
    assert ([x] + xs)[1..] == xs;
  }

  lemma NothingWithout<T>(ys: set<T>)
    ensures Without([], ys) == []
  {
  }

  lemma NoHumps(atStart: bool)
    ensures Humps("", atStart) == [""]
  {
  }

  lemma HumpsCons(s: string, atStart: bool)
    requires s != []
    ensures var c, more := s[0], Humps(s[1..], false);
            Humps(s, atStart)
            == if !IsAlnum(c) then Humps(s[1..], true)
               else if IsCapital(c) || (atStart && IsLower(c)) then [""] + Prepend(Lower(c), more)
               else Prepend(c, more)
  {
  }

  /** A letter in front of a row of words grows its first word. */
  lemma WordGrows(c: char, more: seq<string>)
    requires more != []
    ensures var parts := [[c] + more[0]] + more[1..];
            && Without(parts, {""}) == Prepend(c, [more[0]] + Without(more[1..], {""}))
            && [parts[0]] + Without(parts[1..], {""}) == Prepend(c, [more[0]] + Without(more[1..], {""}))
  {
    hide Without;
    WithoutCons([c] + more[0], more[1..], {""});
    assert ([[c] + more[0]] + more[1..])[1..] == more[1..];
  }

  lemma SplitCons(s: string)
    requires s != []
    ensures var more := Split(s[1..], '_');
            Split(s, '_') == if s[0] == '_' then [""] + more else [[s[0]] + more[0]] + more[1..]
  {
  }

  lemma SmallCons(s: string)
    requires Small(s) && s != []
    ensures Small(s[1..]) && !IsCapital(s[0]) && Lower(s[0]) == s[0] && (IsAlnum(s[0]) <==> s[0] != '_')
  {
    assert s[0] in s;
  }

  /** Of small letters, the humps are the words. */
  lemma {:induction false} HumpsAreWords(s: string, atStart: bool)
    requires Small(s)
    requires forall i :: (if atStart then 0 else 1) <= i < |Split(s, '_')| ==> StartsWithLetter(Split(s, '_')[i])
    ensures var parts := Split(s, '_');
            Humps(s, atStart) == if atStart then [""] + Without(parts, {""}) else [parts[0]] + Without(parts[1..], {""})
  {
    hide Humps, Without, Prepend, Small, IsAlnum, IsCapital, IsLower, Lower;
    if s == [] {
      NoHumps(atStart);
      WithoutCons("", [], {""});
      assert [""] + [] == [""];
      NothingWithout<string>({""});
    } else {
      hide Split;
      var parts, more := Split(s, '_'), Split(s[1..], '_');
      HumpsCons(s, atStart);
      SplitCons(s);
      SmallCons(s);
      if s[0] == '_' {
        forall i | 0 <= i < |more| ensures StartsWithLetter(more[i]) { assert more[i] == parts[i + 1]; }
        HumpsAreWords(s[1..], true);
        WithoutCons("", more, {""});
        assert parts[1..] == more;
      } else {
        forall i | 1 <= i < |more| ensures StartsWithLetter(more[i]) { assert more[i] == parts[i]; }
        HumpsAreWords(s[1..], false);
        WordGrows(s[0], more);
        assert atStart ==> StartsWithLetter(parts[0]) && parts[0][0] == s[0];
      }
    }
  }

  /** A phrase is cut at its space as well. */
  lemma {:induction false} HumpsOfPhrase(s: string, t: string, atStart: bool)
    requires Humps(t, true)[0] == ""
    ensures Humps(s + " " + t, atStart) == Humps(s, atStart) + Humps(t, true)[1..]
  {
    hide Humps, Prepend, Lower, IsLower, IsCapital;
    var all, rest := s + " " + t, Humps(t, true)[1..];
    HumpsCons(all, atStart);
    if s == [] {
      assert all[0] == ' ' && all[1..] == t;
      NoHumps(atStart);
      assert !IsAlnum(' ') by { NotAlnum(); }
      assert Humps(t, true) == [""] + rest;
    } else {
      assert all[0] == s[0] && all[1..] == s[1..] + " " + t;
      HumpsCons(s, atStart);
      HumpsOfPhrase(s[1..], t, !IsAlnum(s[0]));
      var more := Humps(s[1..], false);
      PrependAppend(s[0], more, rest);
      PrependAppend(Lower(s[0]), more, rest);
      assert [""] + Prepend(Lower(s[0]), more) + rest == [""] + (Prepend(Lower(s[0]), more) + rest);
    }
  }

  lemma PrependAppend(c: char, xs: seq<string>, ys: seq<string>)
    requires xs != []
    ensures Prepend(c, xs + ys) == Prepend(c, xs) + ys
  {
    assert (xs + ys)[1..] == xs[1..] + ys;
  }

  lemma NotAlnum()
    ensures !IsAlnum(' ')
  {
  }

  lemma SnakeHumps(h: Hook)
    requires IsSnake(h.scope) && IsSnake(h.phase)
    ensures HumpsOf(h) == [""] + (Words(h.scope) + Words(h.phase))
  {
    hide Humps, Words, StartsWithLetter, IsLower, IsDigit;
    SnakeIsWords(h.scope);
    SnakeIsWords(h.phase);
    HumpsOfPhrase(h.scope, h.phase, true);
    assert ([""] + Words(h.phase))[1..] == Words(h.phase);
  }

  lemma SnakeIsWords(s: string)
    requires IsSnake(s)
    ensures Humps(s, true) == [""] + Words(s)
  {
    hide Humps, StartsWithLetter, IsLower, IsDigit;
    HumpsAreWords(s, true);
  }

  lemma CapitalIs(c: char)
    requires IsLower(c)
    ensures Upper(c) as int == c as int - 32 && c as int >= 97 && c as int <= 122
  {
  }

  /** The letters and digits. */
  lemma AlnumIs(c: char)
    ensures IsAlnum(c) <==> c in "0123456789" + "ABCDEFGHIJKLMNOPQRSTUVWXYZ" + "abcdefghijklmnopqrstuvwxyz"
  {
    DigitIs(c);
    CapitalLetterIs(c);
    SmallLetterIs(c);
  }

  lemma DigitIs(c: char)
    ensures IsDigit(c) <==> c in "0123456789"
  {
    var all := "0123456789";
    assert forall i :: 0 <= i < |all| ==> all[i] as int == 48 + i;
    if IsDigit(c) { assert all[c as int - 48] == c; }
  }

  lemma CapitalLetterIs(c: char)
    ensures IsCapital(c) <==> c in "ABCDEFGHIJKLMNOPQRSTUVWXYZ"
  {
    var all := "ABCDEFGHIJKLMNOPQRSTUVWXYZ";
    assert forall i :: 0 <= i < |all| ==> all[i] as int == 65 + i;
    if IsCapital(c) { assert all[c as int - 65] == c; }
  }

  lemma SmallLetterIs(c: char)
    ensures IsLower(c) <==> c in "abcdefghijklmnopqrstuvwxyz"
  {
    var all := "abcdefghijklmnopqrstuvwxyz";
    assert forall i :: 0 <= i < |all| ==> all[i] as int == 97 + i;
    if IsLower(c) { assert all[c as int - 97] == c; }
  }

  const LETTERS := "ABCDEFGHIJKLMNOPQRSTUVWXYZ" + "abcdefghijklmnopqrstuvwxyz"

  predicate IsLetter(c: char) { c in LETTERS }

  predicate CharacterOk(c: char) {
    && (IsDigit(c) <==> c in "0123456789")
    && (IsLower(c) || IsCapital(c) <==> IsLetter(c))
    && !(IsDigit(c) && (IsLetter(c) || c == '_'))
  }

  /** Identifiers are not empty, start with a letter or underscore, and hold letters, digits and underscores only. */
  lemma IdentifierIs(s: string)
    ensures IsIdentifier(s)
       <==> s != "" && (s[0] == '_' || IsLetter(s[0]))
            && forall c :: c in s ==> c == '_' || c in "0123456789" || IsLetter(c)
  {
    hide IsDigit, IsLower, IsCapital, IsLetter;
    forall c ensures CharacterOk(c) { CharacterIs(c); }
    if s != "" { assert CharacterOk(s[0]) && s[0] in s; }
    if IsIdentifier(s) {
      forall c | c in s ensures c == '_' || c in "0123456789" || IsLetter(c) { assert CharacterOk(c); }
    }
    if forall c :: c in s ==> c == '_' || c in "0123456789" || IsLetter(c) {
      forall c | c in s ensures IsAlnum(c) || c == '_' { assert CharacterOk(c); }
    }
  }

  lemma CharacterIs(c: char)
    ensures CharacterOk(c)
  {
    DigitIs(c);
    CapitalLetterIs(c);
    SmallLetterIs(c);
  }

  // ---------------------------------------------------------------- what a name is

  predicate IsRun(s: string) { s != "" && forall c :: c in s ==> IsAlnum(c) }

  predicate NoRun(s: string) { forall c :: c in s ==> !IsAlnum(c) }

  /** A text given as runs of letters and digits, each behind what separates it from the one before. */
  function Laid(parts: seq<(string, string)>): string {
    if parts == [] then [] else parts[0].0 + parts[0].1 + Laid(parts[1..])
  }

  ghost predicate Separated(parts: seq<(string, string)>) {
    && (forall i :: 0 <= i < |parts| ==> NoRun(parts[i].0) && IsRun(parts[i].1))
    && forall i :: 0 < i < |parts| ==> parts[i].0 != ""
  }

  /** The runs in a row, the first character of each in upper case. */
  function Capitalised(parts: seq<(string, string)>): string {
    if parts == [] then []
    else
      var run := parts[0].1;
      (if run == "" then "" else [Upper(run[0])] + run[1..]) + Capitalised(parts[1..])
  }

  lemma {:induction false} PascalSkips(separator: string, rest: string, atStart: bool)
    requires NoRun(separator)
    ensures Pascal(separator + rest, atStart) == Pascal(rest, atStart || separator != "")
  {
    if separator == "" {
      assert separator + rest == rest;
    } else {
      assert (separator + rest)[1..] == separator[1..] + rest;
      PascalSkips(separator[1..], rest, true);
    }
  }

  lemma {:induction false} PascalKeeps(run: string, rest: string)
    requires forall c :: c in run ==> IsAlnum(c)
    ensures Pascal(run + rest, false) == run + Pascal(rest, false)
  {
    if run == "" {
      assert run + rest == rest;
    } else {
      assert (run + rest)[1..] == run[1..] + rest;
      PascalKeeps(run[1..], rest);
      assert [run[0]] + run[1..] == run;
    }
  }

  lemma {:induction false} PascalOfParts(parts: seq<(string, string)>, end: string, atStart: bool)
    requires Separated(parts) && NoRun(end) && (parts == [] || atStart || parts[0].0 != "")
    ensures Pascal(Laid(parts) + end, atStart) == Capitalised(parts)
  {
    hide Pascal, IsAlnum, Upper, Laid;
    if parts == [] {
      NothingLaid();
      assert Laid(parts) + end == end + "";
      PascalSkips(end, "", atStart);
      PascalOfNothing(atStart || end != "");
    } else {
      var separator, run, rest := parts[0].0, parts[0].1, Laid(parts[1..]) + end;
      LaidFront(parts, parts[0], end);
      Regrouped(separator, run, rest);
      PascalSkips(separator, run + rest, atStart);
      PascalStarts(run, rest);
      PascalOfParts(parts[1..], end, false);
    }
  }

  lemma PascalOfNothing(atStart: bool)
    ensures Pascal("", atStart) == ""
  {
  }

  lemma PascalFirst(c: char, rest: string)
    requires IsAlnum(c)
    ensures Pascal([c] + rest, true) == [Upper(c)] + Pascal(rest, false)
  {
    assert ([c] + rest)[1..] == rest;
  }

  lemma PascalStarts(run: string, rest: string)
    requires IsRun(run)
    ensures Pascal(run + rest, true) == [Upper(run[0])] + run[1..] + Pascal(rest, false)
  {
    hide IsAlnum, Upper, Pascal;
    var c, more := run[0], run[1..];
    PascalKeeps(more, rest);
    PascalFirst(c, more + rest);
    assert [c] + more == run;
    Behind(c, more, rest);
    Behind(Upper(c), more, Pascal(rest, false));
  }

  /** Every text can be laid out so. */
  lemma {:induction false} LaidOut(s: string) returns (parts: seq<(string, string)>, end: string)
    ensures Separated(parts) && NoRun(end) && s == Laid(parts) + end
  {
    hide Laid, IsAlnum, Separated;
    if s == "" {
      NothingLaid();
      return [], "";
    }
    parts, end := LaidOut(s[1..]);
    NothingLaid();
    assert s == [s[0]] + s[1..];
    if parts == [] && !IsAlnum(s[0]) {
      end := [s[0]] + end;
    } else if parts == [] || (IsAlnum(s[0]) && parts[0].0 != "") {
      RunBefore(s[0], parts);
      LaidFront([("", [s[0]])] + parts, ("", [s[0]]), end);
      parts := [("", [s[0]])] + parts;
      assert parts[1..] != [] ==> Laid(parts[1..]) + end == s[1..];
    } else {
      var grown := if IsAlnum(s[0]) then (parts[0].0, [s[0]] + parts[0].1) else ([s[0]] + parts[0].0, parts[0].1);
      FirstGrows(s[0], parts);
      LaidFront(parts, grown, end);
      parts := [grown] + parts[1..];
    }
  }

  lemma NothingLaid()
    ensures Laid([]) == "" && Separated([])
  {
  }

  lemma RunBefore(c: char, parts: seq<(string, string)>)
    requires Separated(parts) && IsAlnum(c) && (parts == [] || parts[0].0 != "")
    ensures Separated([("", [c])] + parts)
  {
    hide IsAlnum;
  }

  lemma FirstGrows(c: char, parts: seq<(string, string)>)
    requires Separated(parts) && parts != [] && (IsAlnum(c) ==> parts[0].0 == "")
    ensures var grown := if IsAlnum(c) then (parts[0].0, [c] + parts[0].1) else ([c] + parts[0].0, parts[0].1);
            Separated([grown] + parts[1..])
  {
    hide IsAlnum;
  }

  lemma LaidFront(parts: seq<(string, string)>, part: (string, string), end: string)
    requires parts != []
    ensures Laid([part] + parts[1..]) + end == part.0 + part.1 + (Laid(parts[1..]) + end)
    ensures Laid(parts) + end == parts[0].0 + parts[0].1 + (Laid(parts[1..]) + end)
  {
    hide Laid;
    LaidStep([part] + parts[1..]);
    LaidStep(parts);
    assert ([part] + parts[1..])[1..] == parts[1..];
    Regrouped(part.0 + part.1, Laid(parts[1..]), end);
    Regrouped(parts[0].0 + parts[0].1, Laid(parts[1..]), end);
  }

  lemma LaidStep(parts: seq<(string, string)>)
    requires parts != []
    ensures Laid(parts) == parts[0].0 + parts[0].1 + Laid(parts[1..])
  {
  }

  lemma Regrouped(a: string, b: string, c: string)
    ensures a + b + c == a + (b + c)
  {
  }

  /** For every hook: the name is the prefix and the runs of its phrase, each with a capital. */
  lemma NameOfRuns(h: Hook, parts: seq<(string, string)>, end: string)
    requires Separated(parts) && NoRun(end) && h.scope + " " + h.phase == Laid(parts) + end
    ensures DispatchName(h) == "Modules_On" + Capitalised(parts)
  {
    hide Pascal, Laid, Capitalised, Separated;
    PascalOfParts(parts, end, true);
  }

  /** Of identifiers in small letters, the name is all their words in a row, each with a capital. */
  lemma NameOfWords(h: Hook)
    requires IsSnake(h.scope) && IsSnake(h.phase)
    ensures DispatchName(h) == "Modules_On" + Joined(Words(h.scope) + Words(h.phase))
  {
    hide Humps, Words, Pascal, Joined, Cut;
    SnakeHumps(h);
    PascalCuts(Phrase(h), true);
    CutJoins(Pascal(Phrase(h), true));
    var words := Words(h.scope) + Words(h.phase);
    assert ([""] + words)[1..] == words && "" + Joined(words) == Joined(words);
  }

  /** With one word each: both words, with capitals. */
  lemma NameOfPlain(h: Hook)
    requires IsPlain(h.scope) && IsPlain(h.phase)
    ensures DispatchName(h)
         == "Modules_On" + [Upper(h.scope[0])] + h.scope[1..] + [Upper(h.phase[0])] + h.phase[1..]
  {
    hide Words, DispatchName;
    NameOfWords(h);
    PlainIsOneWord(h.scope);
    PlainIsOneWord(h.phase);
    assert ([h.scope] + [h.phase])[1..] == [h.phase] && [h.phase][1..] == [];
    var first, second := [Upper(h.scope[0])] + h.scope[1..], [Upper(h.phase[0])] + h.phase[1..];
    assert Joined([h.phase]) == second + "" == second;
    assert Joined([h.scope] + [h.phase]) == first + second;
    assert "Modules_On" + (first + second)
        == "Modules_On" + [Upper(h.scope[0])] + h.scope[1..] + [Upper(h.phase[0])] + h.phase[1..];
  }

  /** Of identifiers in small letters, names are the same exactly when scope and phase have the same words in a row. */
  lemma SameNameIffSameWords(g: Hook, h: Hook)
    requires IsSnake(g.scope) && IsSnake(g.phase) && IsSnake(h.scope) && IsSnake(h.phase)
    ensures DispatchName(g) == DispatchName(h)
       <==> Words(g.scope) + Words(g.phase) == Words(h.scope) + Words(h.phase)
  {
    SameNameIffSameHumps(g, h);
    SnakeHumps(g);
    SnakeHumps(h);
    assert ([""] + (Words(g.scope) + Words(g.phase)))[1..] == Words(g.scope) + Words(g.phase);
    assert ([""] + (Words(h.scope) + Words(h.phase)))[1..] == Words(h.scope) + Words(h.phase);
  }

  lemma PlainIsOneWord(s: string)
    requires IsPlain(s)
    ensures Words(s) == [s]
  {
    SplitNone(s, '_');
    WithoutCons(s, [], {""});
    assert [s] + [] == [s];
  }

  /** Of identifiers without underscores, names tell scope and phase. */
  lemma PlainNamesTellHooks(g: Hook, h: Hook)
    requires IsPlain(g.scope) && IsPlain(g.phase) && IsPlain(h.scope) && IsPlain(h.phase)
    ensures DispatchName(g) == DispatchName(h) <==> g.scope == h.scope && g.phase == h.phase
  {
    SameNameIffSameWords(g, h);
    PlainIsOneWord(g.scope);
    PlainIsOneWord(g.phase);
    PlainIsOneWord(h.scope);
    PlainIsOneWord(h.phase);
    var a, b := [g.scope] + [g.phase], [h.scope] + [h.phase];
    assert a[0] == g.scope && a[1] == g.phase && b[0] == h.scope && b[1] == h.phase;
  }

  // ---------------------------------------------------------------- the hooks of a template

  /** Keys of identifiers tell scope and phase, since an identifier holds no dot. */
  lemma KeysTellHooks(g: Hook, h: Hook)
    requires '.' !in g.scope && '.' !in h.scope
    ensures HookKey(g) == HookKey(h) <==> g.scope == h.scope && g.phase == h.phase
  {
    if HookKey(g) == HookKey(h) {
      var key := HookKey(g);
      assert key == g.scope + ['.'] + g.phase && key == h.scope + ['.'] + h.phase;
      assert key[..|g.scope|] == g.scope && key[..|h.scope|] == h.scope;
      IndexOfIs(key, '.', |g.scope|);
      IndexOfIs(key, '.', |h.scope|);
      assert key[|g.scope| + 1..] == g.phase && key[|h.scope| + 1..] == h.phase;
    }
  }

  /** The subs of a dispatch file have distinct names exactly when no two hooks have the same humps. */
  lemma DistinctSubsIff(hooks: seq<Hook>)
    ensures DistinctKeys(hooks, DispatchName) <==> DistinctKeys(hooks, HumpsOf)
  {
    forall i, j | 0 <= i < j < |hooks|
      ensures DispatchName(hooks[i]) == DispatchName(hooks[j]) <==> HumpsOf(hooks[i]) == HumpsOf(hooks[j])
    {
      SameNameIffSameHumps(hooks[i], hooks[j]);
    }
  }

  ghost predicate AllPlain(hooks: seq<Hook>) { forall h :: h in hooks ==> IsPlain(h.scope) && IsPlain(h.phase) }

  /** With hooks in small letters and without underscores, distinct keys give distinct subs, and conversely. */
  lemma PlainSubsDistinctIff(hooks: seq<Hook>)
    requires AllPlain(hooks)
    ensures DistinctKeys(hooks, DispatchName) <==> DistinctKeys(hooks, HookKey)
  {
    forall i, j | 0 <= i < j < |hooks|
      ensures DispatchName(hooks[i]) == DispatchName(hooks[j]) <==> HookKey(hooks[i]) == HookKey(hooks[j])
    {
      assert hooks[i] in hooks && hooks[j] in hooks;
      PlainNamesTellHooks(hooks[i], hooks[j]);
      KeysTellHooks(hooks[i], hooks[j]);
    }
  }

  /** The words of two identifiers may run together differently: different hooks of one template, one name. */
  lemma DispatchNamesMayClash()
    ensures var g, h := Hook("a", "b_c", "", ""), Hook("a_b", "c", "", "");
            && IsIdentifier(g.scope) && IsIdentifier(g.phase) && IsIdentifier(h.scope) && IsIdentifier(h.phase)
            && HookKey(g) != HookKey(h)
            && DispatchName(g) == DispatchName(h)
  {
    assert ("a" + "." + "b_c")[1] == '.' && ("a_b" + "." + "c")[1] == '_';
    assert "a" + " " + "b_c" == "a b_c" && "a_b" + " " + "c" == "a_b c";
    PascalAbc();
  }

  lemma PascalAbc()
    ensures Pascal("a b_c", true) == "ABC" == Pascal("a_b c", true)
  {
    assert Pascal("c", true) == "C";
    assert Pascal("_c", false) == "C" == Pascal(" c", false);
    assert Pascal("b_c", true) == "BC" == Pascal("b c", true);
    assert Pascal(" b_c", false) == "BC" == Pascal("_b c", false);
  }
}

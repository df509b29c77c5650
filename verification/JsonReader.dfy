/**
 A reader for the JSON that records are printed in: a printed value is read back, whatever follows it.
 */
module JsonReader {
  import opened Wrappers
  import opened Seqs
  import opened Order
  import opened Text
  import P = Provenance

  type Json = P.Json
  type Read<T> = Option<(T, string)>

  // ---------------------------------------------------------------- the reader

  function HexValue(c: char): Option<nat> {
    if '0' <= c <= '9' then Some(c as int - '0' as int)
    else if 'a' <= c <= 'f' then Some(c as int - 'a' as int + 10)
    else if 'A' <= c <= 'F' then Some(c as int - 'A' as int + 10)
    else None
  }

  /** The character with the code point that four hexadecimal digits stand for, unless that is half of a pair. */
  function ReadHex(s: string): Option<char> {
    if |s| < 4 then None
    else
      match (HexValue(s[0]), HexValue(s[1]), HexValue(s[2]), HexValue(s[3]))
      case (Some(a), Some(b), Some(c), Some(d)) =>
        var n := 4096 * a + 256 * b + 16 * c + d;
        if n < 0xD800 || 0xE000 <= n < 0x10000 then Some(n as char) else None
      case _ => None
  }

  /** What stands behind a backslash: one character, or `u` and four digits. */
  function ReadEscape(s: string): (r: Read<char>)
    ensures r.Some? ==> |r.value.1| < |s|
  {
    if s == "" then None
    else if s[0] == '"' || s[0] == '\\' || s[0] == '/' then Some((s[0], s[1..]))
    else if s[0] == 'b' then Some(('\U{0008}', s[1..]))
    else if s[0] == 't' then Some(('\t', s[1..]))
    else if s[0] == 'n' then Some(('\n', s[1..]))
    else if s[0] == 'f' then Some(('\U{000C}', s[1..]))
    else if s[0] == 'r' then Some(('\r', s[1..]))
    else if s[0] == 'u' && ReadHex(s[1..]).Some? then Some((ReadHex(s[1..]).value, s[5..]))
    else None
  }

  /** The characters up to the closing quote. */
  function ReadChars(s: string): (r: Read<string>)
    ensures r.Some? ==> |r.value.1| < |s|
    decreases |s|
  {
    if s == "" || s[0] < ' ' then None
    else if s[0] == '"' then Some(("", s[1..]))
    else if s[0] == '\\' then
      match ReadEscape(s[1..])
      case None => None
      case Some((c, rest)) =>
        match ReadChars(rest)
        case None => None
        case Some((text, rest')) => Some(([c] + text, rest'))
    else
      match ReadChars(s[1..])
      case None => None
      case Some((text, rest)) => Some(([s[0]] + text, rest))
  }

  function ReadNumber(s: string): (string, string) {
    if s == "" || !P.IsNumChar(s[0]) then ("", s)
    else
      var (digits, rest) := ReadNumber(s[1..]);
      ([s[0]] + digits, rest)
  }

  lemma {:induction false} NumberShortens(s: string)
    ensures s == ReadNumber(s).0 + ReadNumber(s).1 && forall c :: c in ReadNumber(s).0 ==> P.IsNumChar(c)
  {
    if s != "" && P.IsNumChar(s[0]) { NumberShortens(s[1..]); }
  }

  function ReadValue(s: string): (r: Read<Json>)
    ensures r.Some? ==> |r.value.1| < |s|
    decreases |s|, 0
  {
    if s == "" then None
    else if s[0] == '"' then
      match ReadChars(s[1..])
      case None => None
      case Some((text, rest)) => Some((P.Text(text), rest))
    else if s[0] == '[' then
      if "]" <= s[1..] then Some((P.List([]), s[2..]))
      else
        match ReadItems(s[1..])
        case None => None
        case Some((items, rest)) => Some((P.List(items), rest))
    else if s[0] == '{' then
      if "}" <= s[1..] then Some((P.Record([]), s[2..]))
      else
        match ReadFields(s[1..])
        case None => None
        case Some((fields, rest)) => Some((P.Record(fields), rest))
    else if '0' <= s[0] <= '9' || s[0] == '-' then
      var (digits, rest) := ReadNumber(s);
      NumberShortens(s);
      assert digits[0] == s[0];
      Some((P.Number(digits), rest))
    else None
  }

  /** At least one value, up to the closing bracket. */
  function ReadItems(s: string): (r: Read<seq<Json>>)
    ensures r.Some? ==> |r.value.1| < |s|
    decreases |s|, 1
  {
    match ReadValue(s)
    case None => None
    case Some((v, rest)) =>
      if "]" <= rest then Some(([v], rest[1..]))
      else if "," <= rest then
        match ReadItems(rest[1..])
        case None => None
        case Some((more, rest')) => Some(([v] + more, rest'))
      else None
  }

  /** At least one field, up to the closing brace. */
  function ReadFields(s: string): (r: Read<seq<(string, Json)>>)
    ensures r.Some? ==> |r.value.1| < |s|
    decreases |s|, 1
  {
    if !("\"" <= s) then None
    else
      match ReadChars(s[1..])
      case None => None
      case Some((k, afterKey)) =>
        if !(":" <= afterKey) then None
        else
          match ReadValue(afterKey[1..])
          case None => None
          case Some((v, rest)) =>
            if "}" <= rest then Some(([(k, v)], rest[1..]))
            else if "," <= rest then
              match ReadFields(rest[1..])
              case None => None
              case Some((more, rest')) => Some(([(k, v)] + more, rest'))
            else None
  }

  // ---------------------------------------------------------------- strings

  lemma HexBack(n: nat)
    requires n < 16
    ensures HexValue(P.HexDigit(n)) == Some(n)
  {
  }

  /** What was written for a character is read as that character. */
  lemma EscapedReads(c: char, rest: string)
    requires c < ' ' || c == '"' || c == '\\'
    ensures P.Escaped(c) != "" && P.Escaped(c)[0] == '\\'
    ensures ReadEscape(P.Escaped(c)[1..] + rest) == Some((c, rest))
  {
    var s := P.Escaped(c)[1..] + rest;
    if P.Escaped(c)[1] == 'u' {
      ControlReads(c, rest);
    } else {
      assert |P.Escaped(c)| == 2 && s[1..] == rest;
    }
  }

  lemma ControlReads(c: char, rest: string)
    requires c < ' ' && P.Escaped(c) == "\\u00" + [P.HexDigit(c as int / 16), P.HexDigit(c as int % 16)]
    ensures ReadEscape(P.Escaped(c)[1..] + rest) == Some((c, rest))
  {
    hide P.HexDigit, HexValue;
    var high, low := P.HexDigit(c as int / 16), P.HexDigit(c as int % 16);
    HexBack(c as int / 16);
    HexBack(c as int % 16);
    var s := P.Escaped(c)[1..] + rest;
    assert s == ['u', '0', '0', high, low] + rest;
    var hex := s[1..];
    assert hex[0] == '0' && hex[1] == '0' && hex[2] == high && hex[3] == low && s[5..] == rest;
    ZeroDigit();
  }

  lemma ZeroDigit()
    ensures HexValue('0') == Some(0)
  {
  }

  lemma {:induction false} CharsRead(s: string, rest: string)
    ensures ReadChars(P.EscapedAll(s) + "\"" + rest) == Some((s, rest))
  {
    hide P.Escaped, ReadEscape;
    var all := P.EscapedAll(s) + "\"" + rest;
    if s == "" {
      assert all == "\"" + rest && all[1..] == rest;
    } else {
      var c, more := s[0], P.EscapedAll(s[1..]) + "\"" + rest;
      CharsRead(s[1..], rest);
      assert all == P.Escaped(c) + more;
      assert [c] + s[1..] == s;
      if c < ' ' || c == '"' || c == '\\' {
        EscapedReads(c, more);
        assert all[1..] == P.Escaped(c)[1..] + more;
      } else {
        PlainStays(c);
        assert all[0] == c && all[1..] == more;
      }
    }
  }

  lemma PlainStays(c: char)
    requires !(c < ' ') && c != '"' && c != '\\'
    ensures P.Escaped(c) == [c]
  {
  }

  // ---------------------------------------------------------------- values

  function FieldKey(f: (string, Json)): string { f.0 }

  /** Fields ascend, at every depth. */
  ghost predicate Canonical(j: Json) {
    match j
    case List(items) => forall i :: 0 <= i < |items| ==> Canonical(items[i])
    case Record(fields) =>
      Ascending(MapSeq(FieldKey, fields)) && forall i :: 0 <= i < |fields| ==> Canonical(fields[i].1)
    case _ => true
  }

  /** What may follow a value: nothing, or a separator. */
  predicate Delimited(rest: string) { rest == "" || rest[0] == ',' || rest[0] == ']' || rest[0] == '}' }

  lemma {:induction false} NumberReads(t: string, rest: string)
    requires (forall c :: c in t ==> P.IsNumChar(c)) && Delimited(rest)
    ensures ReadNumber(t + rest) == (t, rest)
  {
    if t == "" {
      assert t + rest == rest;
    } else {
      assert (t + rest)[1..] == t[1..] + rest;
      NumberReads(t[1..], rest);
      assert [t[0]] + t[1..] == t;
    }
  }

  lemma {:induction false} AscendingStays<T>(xs: seq<T>, key: T -> string)
    requires Ascending(MapSeq(key, xs))
    ensures SortBy(xs, key) == xs
  {
    if xs != [] {
      assert MapSeq(key, xs)[1..] == MapSeq(key, xs[1..]);
      assert forall i, j :: 0 <= i < j < |xs| - 1 ==>
        MapSeq(key, xs[1..])[i] == MapSeq(key, xs)[i + 1] && MapSeq(key, xs[1..])[j] == MapSeq(key, xs)[j + 1];
      AscendingStays(xs[1..], key);
      if |xs| > 1 {
        assert Less(MapSeq(key, xs)[0], MapSeq(key, xs)[1]);
        LessAsymmetric(key(xs[0]), key(xs[1]));
      }
      assert [xs[0]] + xs[1..] == xs;
    }
  }

  /** Fields that ascend are printed as they stand. */
  lemma RecordText(fields: seq<(string, Json)>)
    requires Ascending(MapSeq(FieldKey, fields))
    ensures var j := P.Record(fields);
            P.StableStringify(j) == "{" + Join(P.FieldLines(P.FieldTexts(fields, j)), ",") + "}"
  {
    var texts := P.FieldTexts(fields, P.Record(fields));
    assert MapSeq(P.PrintedKey, texts) == MapSeq(FieldKey, fields);
    AscendingStays(texts, P.PrintedKey);
  }

  lemma ValueStart(j: Json)
    ensures P.StableStringify(j) != "" && P.StableStringify(j)[0] != ']' && P.StableStringify(j)[0] != '}'
  {
  }

  /** Reading a printed value gives the value and what follows it. */
  lemma {:induction false} ReadShown(j: Json, rest: string)
    requires Canonical(j) && Delimited(rest)
    ensures ReadValue(P.StableStringify(j) + rest) == Some((j, rest))
    decreases j, 1
  {
    hide ReadValue, P.StableStringify, Delimited;
    match j
    case Text(text) => ReadShownText(text, rest);
    case Number(digits) => ReadShownNumber(digits, rest);
    case List(items) => ReadShownList(items, rest);
    case Record(fields) => ReadShownRecord(fields, rest);
  }

  lemma ReadShownText(text: string, rest: string)
    ensures ReadValue(P.StableStringify(P.Text(text)) + rest) == Some((P.Text(text), rest))
  {
    hide ReadChars, P.EscapedAll;
    var s := P.StableStringify(P.Text(text)) + rest;
    CharsRead(text, rest);
    assert s[0] == '"' && s[1..] == P.EscapedAll(text) + "\"" + rest;
  }

  lemma ReadShownNumber(digits: P.NumText, rest: string)
    requires Delimited(rest)
    ensures ReadValue(P.StableStringify(P.Number(digits)) + rest) == Some((P.Number(digits), rest))
  {
    hide ReadNumber;
    assert (digits + rest)[0] == digits[0];
    NumberReads(digits, rest);
  }

  lemma {:induction false} ReadShownList(items: seq<Json>, rest: string)
    requires Canonical(P.List(items))
    ensures ReadValue(P.StableStringify(P.List(items)) + rest) == Some((P.List(items), rest))
    decreases P.List(items), 0, |items| + 1
  {
    hide ReadItems, ReadValue, Canonical, P.Texts;
    var j := P.List(items);
    if items == [] {
      assert P.StableStringify(j) + rest == "[" + ("]" + rest);
      EmptyReads(rest);
    } else {
      ItemsCanonical(items);
      ReadShownItems(items, j, rest);
      FirstItem(items, j);
      var text := Join(P.Texts(items, j), ",");
      assert P.StableStringify(j) + rest == "[" + (text + "]" + rest);
      ListStep(text + "]" + rest);
    }
  }

  lemma EmptyReads(rest: string)
    ensures ReadValue("[" + ("]" + rest)) == Some((P.List([]), rest))
    ensures ReadValue("{" + ("}" + rest)) == Some((P.Record([]), rest))
  {
    Behind("[", "]" + rest);
    Behind("]", rest);
    Behind("{", "}" + rest);
    Behind("}", rest);
    assert ("[" + ("]" + rest))[2..] == rest && ("{" + ("}" + rest))[2..] == rest;
  }

  lemma ListStep(inner: string)
    requires inner != "" && inner[0] != ']'
    ensures ReadValue("[" + inner)
         == match ReadItems(inner) case None => None case Some((items, rest)) => Some((P.List(items), rest))
  {
    hide ReadItems;
    Behind("[", inner);
  }

  lemma RecordStep(inner: string)
    requires inner != "" && inner[0] != '}'
    ensures ReadValue("{" + inner)
         == match ReadFields(inner) case None => None case Some((fields, rest)) => Some((P.Record(fields), rest))
  {
    hide ReadFields;
    Behind("{", inner);
  }

  lemma ItemsCanonical(items: seq<Json>)
    requires Canonical(P.List(items))
    ensures forall i :: 0 <= i < |items| ==> Canonical(items[i])
  {
  }

  lemma FieldsCanonical(fields: seq<(string, Json)>)
    requires Canonical(P.Record(fields))
    ensures Ascending(MapSeq(FieldKey, fields)) && forall i :: 0 <= i < |fields| ==> Canonical(fields[i].1)
  {
  }

  lemma {:induction false} ReadShownRecord(fields: seq<(string, Json)>, rest: string)
    requires Canonical(P.Record(fields))
    ensures ReadValue(P.StableStringify(P.Record(fields)) + rest) == Some((P.Record(fields), rest))
    decreases P.Record(fields), 0, |fields| + 1
  {
    hide ReadFields, ReadValue, Canonical, P.StableStringify, P.FieldTexts, P.FieldLines;
    var j := P.Record(fields);
    FieldsCanonical(fields);
    RecordText(fields);
    if fields == [] {
      NoFieldsText(j);
      EmptyReads(rest);
    } else {
      ReadShownFields(fields, j, rest);
      FirstField(fields, j);
      var text := Join(P.FieldLines(P.FieldTexts(fields, j)), ",");
      assert P.StableStringify(j) + rest == "{" + (text + "}" + rest);
      RecordStep(text + "}" + rest);
    }
  }

  lemma NoFieldsText(whole: Json)
    ensures "{" + Join(P.FieldLines(P.FieldTexts([], whole)), ",") + "}" == "{" + "}"
    ensures forall rest: string :: "{" + "}" + rest == "{" + ("}" + rest)
  {
  }

  lemma FirstItem(items: seq<Json>, whole: Json)
    requires items != [] && forall i :: 0 <= i < |items| ==> items[i] < whole
    ensures var text := Join(P.Texts(items, whole), ","); text != "" && text[0] != ']'
  {
    hide P.StableStringify;
    ValueStart(items[0]);
  }

  lemma FirstField(fields: seq<(string, Json)>, whole: Json)
    requires fields != [] && forall i :: 0 <= i < |fields| ==> fields[i].1 < whole
    ensures var text := Join(P.FieldLines(P.FieldTexts(fields, whole)), ","); text != "" && text[0] == '"'
  {
    hide P.StableStringify, P.EscapedAll;
    var lines := P.FieldLines(P.FieldTexts(fields, whole));
    assert lines[0][0] == '"';
  }

  lemma {:induction false} ReadShownItems(items: seq<Json>, whole: Json, rest: string)
    requires items != [] && forall i :: 0 <= i < |items| ==> items[i] < whole && Canonical(items[i])
    ensures ReadItems(Join(P.Texts(items, whole), ",") + "]" + rest) == Some((items, rest))
    decreases whole, 0, |items|
  {
    hide P.StableStringify, ReadValue;
    var v, more := items[0], items[1..];
    var text, texts := P.StableStringify(v), P.Texts(items, whole);
    assert texts[1..] == P.Texts(more, whole);
    var after := if more == [] then "]" + rest else "," + (Join(P.Texts(more, whole), ",") + "]" + rest);
    JoinFirst(texts, "]" + rest);
    JoinedAnd(Join(texts, ","), "]", rest);
    if more != [] { JoinedAnd(Join(texts[1..], ","), "]", rest); }
    hide Join;
    ReadShown(v, after);
    if more == [] {
      assert after[1..] == rest && "]" <= after;
      assert [v] == items;
    } else {
      assert after[1..] == Join(P.Texts(more, whole), ",") + "]" + rest && "," <= after && after[0] == ',';
      ReadShownItems(more, whole, rest);
      assert [v] + more == items;
    }
  }

  /** What of a list of fields its first field takes, and what follows. */
  lemma ShownFieldsParts(fields: seq<(string, Json)>, whole: Json, rest: string)
    requires fields != [] && forall i :: 0 <= i < |fields| ==> fields[i].1 < whole
    ensures var k, v, more := fields[0].0, fields[0].1, fields[1..];
            Join(P.FieldLines(P.FieldTexts(fields, whole)), ",") + "}" + rest
            == "\"" + (P.EscapedAll(k) + "\"" + (":" + (P.StableStringify(v)
               + if more == [] then "}" + rest
                 else "," + (Join(P.FieldLines(P.FieldTexts(more, whole)), ",") + "}" + rest))))
  {
    hide P.StableStringify, P.EscapedAll, Join, P.FieldLines;
    var k, v, more := fields[0].0, fields[0].1, fields[1..];
    var lines := P.FieldLines(P.FieldTexts(fields, whole));
    FirstLine(fields, whole);
    JoinFirst(lines, "}" + rest);
    JoinedAnd(Join(lines, ","), "}", rest);
    if more != [] { JoinedAnd(Join(lines[1..], ","), "}", rest); }
    Regrouped(P.EscapedAll(k), P.StableStringify(v),
              if more == [] then "}" + rest
              else "," + (Join(P.FieldLines(P.FieldTexts(more, whole)), ",") + "}" + rest));
  }

  lemma FirstLine(fields: seq<(string, Json)>, whole: Json)
    requires fields != [] && forall i :: 0 <= i < |fields| ==> fields[i].1 < whole
    ensures var lines := P.FieldLines(P.FieldTexts(fields, whole));
            && |lines| == |fields| && lines[1..] == P.FieldLines(P.FieldTexts(fields[1..], whole))
            && lines[0] == P.JsonString(fields[0].0) + ":" + P.StableStringify(fields[0].1)
  {
    hide P.StableStringify, P.EscapedAll;
  }

  lemma JoinFirst(parts: seq<string>, end: string)
    requires parts != []
    ensures Join(parts, ",") + end == parts[0] + if |parts| == 1 then end else "," + (Join(parts[1..], ",") + end)
  {
    JoinUnfolds(parts);
    hide Join;
    if |parts| > 1 { Joined(parts[0], ",", Join(parts[1..], ","), end); }
  }

  lemma JoinUnfolds(parts: seq<string>)
    requires parts != []
    ensures Join(parts, ",") == if |parts| == 1 then parts[0] else parts[0] + "," + Join(parts[1..], ",")
  {
  }

  lemma Joined(first: string, sep: string, others: string, end: string)
    ensures first + sep + others + end == first + (sep + (others + end))
  {
  }

  lemma JoinedAnd(a: string, b: string, c: string)
    ensures a + b + c == a + (b + c)
  {
  }

  lemma Regrouped(key: string, value: string, after: string)
    ensures ("\"" + key + "\"") + ":" + value + after == "\"" + (key + "\"" + (":" + (value + after)))
  {
  }

  lemma {:induction false} ReadShownFields(fields: seq<(string, Json)>, whole: Json, rest: string)
    requires fields != [] && forall i :: 0 <= i < |fields| ==> fields[i].1 < whole && Canonical(fields[i].1)
    ensures ReadFields(Join(P.FieldLines(P.FieldTexts(fields, whole)), ",") + "}" + rest) == Some((fields, rest))
    decreases whole, 0, |fields|
  {
    hide P.StableStringify, ReadValue, ReadChars, ReadFields, P.EscapedAll, P.FieldTexts, Canonical, Join, P.FieldLines;
    var k, v, more := fields[0].0, fields[0].1, fields[1..];
    ShownFieldsParts(fields, whole, rest);
    var shown := if more == [] then "" else Join(P.FieldLines(P.FieldTexts(more, whole)), ",") + "}" + rest;
    var after := if more == [] then "}" + rest else "," + shown;
    var valueText := P.StableStringify(v) + after;
    CharsRead(k, ":" + valueText);
    ReadShown(v, after);
    FieldStep(P.EscapedAll(k) + "\"" + (":" + valueText), k, valueText, v, after);
    if more == [] {
      Behind("}", rest);
      assert [(k, v)] == fields;
    } else {
      Behind(",", shown);
      ReadShownFields(more, whole, rest);
      assert [(k, v)] + more == fields;
    }
  }

  lemma Behind(sep: string, text: string)
    requires |sep| == 1
    ensures sep <= sep + text && (sep + text)[1..] == text && (sep + text)[0] == sep[0]
  {
  }

  /** Reading one field, when its key and its value can be read. */
  lemma FieldStep(text: string, k: string, valueText: string, v: Json, after: string)
    requires ReadChars(text) == Some((k, ":" + valueText)) && ReadValue(valueText) == Some((v, after))
    ensures ReadFields("\"" + text)
         == if "}" <= after then Some(([(k, v)], after[1..]))
            else if "," <= after then
              match ReadFields(after[1..])
              case None => None
              case Some((more, rest')) => Some(([(k, v)] + more, rest'))
            else None
  {
    hide ReadChars, ReadValue;
    Behind("\"", text);
    Behind(":", valueText);
  }
}

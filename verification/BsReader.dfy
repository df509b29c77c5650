/** A reader for the grammar of printed values, and what follows from it: the text determines the value. */
module BsReader {
  import opened Wrappers
  import opened Order
  import opened BsValue

  // ---------------------------------------------------------------- the grammar

  predicate IsDigit(c: char) { '0' <= c <= '9' }

  predicate IsNumChar(c: char) { IsDigit(c) || c == '.' || c == 'e' || c == '+' || c == '-' }

  predicate IsKeyChar(c: char) { c != ':' }

  /** The text of a finite number: it starts with a digit or a minus sign. */
  predicate IsNumText(t: string) { t != "" && (IsDigit(t[0]) || t[0] == '-') && forall c :: c in t ==> IsNumChar(c) }

  /** A key that the reader can tell from what stands around it: no colon, and not what ends an empty object. */
  predicate IsKey(k: string) { !(" }" <= k) && forall c :: c in k ==> IsKeyChar(c) }

  /** Numbers have number texts and keys are such keys, at every depth. */
  predicate Readable(v: Value) {
    match v
    case Num(digits) => IsNumText(digits)
    case Arr(items) => ItemsReadable(items)
    case Obj(fields) => FieldsReadable(fields)
    case _ => true
  }

  predicate ItemsReadable(items: Values) { items.Item? ==> Readable(items.head) && ItemsReadable(items.tail) }

  predicate FieldsReadable(fs: Fields) {
    fs.Field? ==> IsKey(fs.key) && Readable(fs.value) && FieldsReadable(fs.rest)
  }

  /** All number texts in a value, at any depth. */
  function NumbersIn(v: Value): set<string> {
    match v
    case Num(digits) => {digits}
    case Arr(items) => ItemNumbers(items)
    case Obj(fields) => FieldNumbers(fields)
    case _ => {}
  }

  function ItemNumbers(items: Values): set<string> {
    if items.End? then {} else NumbersIn(items.head) + ItemNumbers(items.tail)
  }

  function FieldNumbers(fs: Fields): set<string> {
    if fs.NoFields? then {} else NumbersIn(fs.value) + FieldNumbers(fs.rest)
  }

  ghost predicate NumbersRead(numbers: set<string>) { forall t :: t in numbers ==> IsNumText(t) }

  /** No key of the object holds a colon or begins with a space and a closing brace. */
  ghost predicate KeysRead(o: Fields) { forall k :: k in Keys(o) ==> ':' !in k && !(" }" <= k) }

  ghost predicate AllKeysRead(objects: set<Fields>) { forall o :: o in objects ==> KeysRead(o) }

  /** The values whose numbers and keys, at any depth, are such texts. */
  lemma {:induction false} ReadableIff(v: Value)
    ensures Readable(v) <==> NumbersRead(NumbersIn(v)) && AllKeysRead(ObjectsIn(v))
  {
    hide IsNumText, IsKey, KeysRead;
    match v
    case Arr(items) => ItemsReadableIff(items);
    case Obj(fields) =>
      FieldsReadableIff(fields);
      assert AllKeysRead({fields} + FieldObjects(fields)) <==> KeysRead(fields) && AllKeysRead(FieldObjects(fields));
    case _ =>
  }

  lemma {:induction false} ItemsReadableIff(items: Values)
    ensures ItemsReadable(items) <==> NumbersRead(ItemNumbers(items)) && AllKeysRead(ItemObjects(items))
  {
    hide IsNumText, IsKey, KeysRead, AllKeysRead, NumbersRead;
    if items.Item? {
      ReadableIff(items.head);
      ItemsReadableIff(items.tail);
      BothRead(NumbersIn(items.head), ItemNumbers(items.tail), ObjectsIn(items.head), ItemObjects(items.tail));
    } else {
      NothingToRead();
    }
  }

  lemma {:induction false} FieldsReadableIff(fs: Fields)
    ensures FieldsReadable(fs)
       <==> NumbersRead(FieldNumbers(fs)) && KeysRead(fs) && AllKeysRead(FieldObjects(fs))
  {
    hide IsNumText, IsKey, KeysRead, AllKeysRead, NumbersRead;
    NothingToRead();
    if fs.Field? {
      ReadableIff(fs.value);
      FieldsReadableIff(fs.rest);
      FirstKeyRead(fs);
      BothRead(NumbersIn(fs.value), FieldNumbers(fs.rest), ObjectsIn(fs.value), FieldObjects(fs.rest));
    }
  }

  lemma BothRead(ns: set<string>, ms: set<string>, os: set<Fields>, ps: set<Fields>)
    ensures NumbersRead(ns + ms) <==> NumbersRead(ns) && NumbersRead(ms)
    ensures AllKeysRead(os + ps) <==> AllKeysRead(os) && AllKeysRead(ps)
  {
    hide IsNumText, KeysRead;
  }

  lemma NothingToRead()
    ensures NumbersRead({}) && AllKeysRead({}) && KeysRead(NoFields)
  {
  }

  lemma FirstKeyRead(fs: Fields)
    requires fs.Field?
    ensures KeysRead(fs) <==> IsKey(fs.key) && KeysRead(fs.rest)
  {
    assert IsKey(fs.key) <==> ':' !in fs.key && !(" }" <= fs.key);
    assert forall k :: k in Keys(fs) <==> k == fs.key || k in Keys(fs.rest);
  }

  // ---------------------------------------------------------------- the reader

  type Read<T> = Option<(T, string)>

  function ReadSpan(s: string, inSpan: char -> bool): (string, string) {
    if s == "" || !inSpan(s[0]) then ("", s)
    else
      var (span, rest) := ReadSpan(s[1..], inSpan);
      ([s[0]] + span, rest)
  }

  lemma {:induction false} SpanShortens(s: string, inSpan: char -> bool)
    ensures s == ReadSpan(s, inSpan).0 + ReadSpan(s, inSpan).1
  {
    if s != "" && inSpan(s[0]) { SpanShortens(s[1..], inSpan); }
  }

  /** The characters up to the first double quote that is not doubled. */
  function ReadQuoted(s: string): (r: Read<string>)
    ensures r.Some? ==> |r.value.1| < |s|
    decreases |s|
  {
    if s == "" then None
    else if s[0] != '"' then
      match ReadQuoted(s[1..])
      case None => None
      case Some((text, rest)) => Some(([s[0]] + text, rest))
    else if |s| > 1 && s[1] == '"' then
      match ReadQuoted(s[2..])
      case None => None
      case Some((text, rest)) => Some((['"'] + text, rest))
    else Some(("", s[1..]))
  }

  function ReadValue(s: string): (r: Read<Value>)
    ensures r.Some? ==> |r.value.1| < |s|
    decreases |s|, 0
  {
    if s == "" then None
    else if s[0] == 'i' then ReadWord(s, "invalid", Null)
    else if s[0] == 't' then ReadWord(s, "true", Bool(true))
    else if s[0] == 'f' then ReadWord(s, "false", Bool(false))
    else if s[0] == '"' then
      match ReadQuoted(s[1..])
      case None => None
      case Some((text, rest)) => Some((Str(text), rest))
    else if s[0] == '[' then
      if "]" <= s[1..] then Some((Arr(End), s[2..]))
      else
        match ReadItems(s[1..])
        case None => None
        case Some((items, rest)) => Some((Arr(items), rest))
    else if s[0] == '{' then
      if "  }" <= s[1..] then Some((Obj(NoFields), s[4..]))
      else if !(" " <= s[1..]) then None
      else
        match ReadFields(s[2..])
        case None => None
        case Some((fields, rest)) => Some((Obj(fields), rest))
    else ReadNumber(s)
  }

  function ReadWord(s: string, word: string, v: Value): (r: Read<Value>)
    requires word != ""
    ensures r.Some? ==> |r.value.1| < |s|
  {
    if word <= s then Some((v, s[|word|..])) else None
  }

  function ReadNumber(s: string): (r: Read<Value>)
    ensures r.Some? ==> |r.value.1| < |s|
  {
    var (digits, rest) := ReadSpan(s, IsNumChar);
    SpanShortens(s, IsNumChar);
    if digits == "" then None else Some((Num(digits), rest))
  }

  /** At least one value, up to the closing bracket. */
  function ReadItems(s: string): (r: Read<Values>)
    ensures r.Some? ==> |r.value.1| < |s|
    decreases |s|, 1
  {
    match ReadValue(s)
    case None => None
    case Some((v, rest)) =>
      if "]" <= rest then Some((Item(v, End), rest[1..]))
      else if ", " <= rest then
        match ReadItems(rest[2..])
        case None => None
        case Some((more, rest')) => Some((Item(v, more), rest'))
      else None
  }

  /** At least one field, up to the closing brace. */
  function ReadFields(s: string): (r: Read<Fields>)
    ensures r.Some? ==> |r.value.1| < |s|
    decreases |s|, 1
  {
    var (k, afterKey) := ReadSpan(s, IsKeyChar);
    SpanShortens(s, IsKeyChar);
    if !(": " <= afterKey) then None
    else
      match ReadValue(afterKey[2..])
      case None => None
      case Some((v, rest)) =>
        if " }" <= rest then Some((Field(k, v, NoFields), rest[2..]))
        else if ", " <= rest then
          match ReadFields(rest[2..])
          case None => None
          case Some((more, rest')) => Some((Field(k, v, more), rest'))
        else None
  }

  // ---------------------------------------------------------------- reading what was printed

  /** What may follow a value: nothing, or a separator. */
  predicate Delimited(rest: string) { rest == "" || rest[0] == ',' || rest[0] == ']' || rest[0] == ' ' }

  lemma {:induction false} ReadSpanOf(t: string, rest: string, inSpan: char -> bool)
    requires (forall c :: c in t ==> inSpan(c)) && (rest != "" ==> !inSpan(rest[0]))
    ensures ReadSpan(t + rest, inSpan) == (t, rest)
  {
    if t == "" {
      assert t + rest == rest;
    } else {
      assert (t + rest)[1..] == t[1..] + rest;
      ReadSpanOf(t[1..], rest, inSpan);
      assert [t[0]] + t[1..] == t;
    }
  }

  lemma {:induction false} ReadQuotedOf(s: string, rest: string)
    requires rest != "" ==> rest[0] != '"'
    ensures ReadQuoted(DoubleQuotes(s) + "\"" + rest) == Some((s, rest))
  {
    var all := DoubleQuotes(s) + "\"" + rest;
    if s == "" {
      assert all == "\"" + rest && all[1..] == rest;
    } else {
      ReadQuotedOf(s[1..], rest);
      var more := DoubleQuotes(s[1..]) + "\"" + rest;
      assert [s[0]] + s[1..] == s;
      if s[0] == '"' {
        assert all == "\"\"" + more && all[2..] == more;
      } else {
        assert all == [s[0]] + more && all[1..] == more;
      }
    }
  }

  /** What the reader returns: nothing that prints as `invalid` but null, and everything readable. */
  predicate Literal(v: Value) {
    match v
    case Null => true
    case Str(_) => true
    case Num(digits) => IsNumText(digits)
    case Bool(_) => true
    case Arr(items) => ItemsLiteral(items)
    case Obj(fields) => FieldsLiteral(fields)
    case _ => false
  }

  predicate ItemsLiteral(items: Values) { items.Item? ==> Literal(items.head) && ItemsLiteral(items.tail) }

  predicate FieldsLiteral(fs: Fields) {
    fs.Field? ==> IsKey(fs.key) && Literal(fs.value) && FieldsLiteral(fs.rest)
  }

  lemma {:induction false} InsertLiteral(k: string, v: Value, fs: Fields)
    requires IsKey(k) && Literal(v) && FieldsLiteral(fs)
    ensures FieldsLiteral(InsertField(k, v, fs))
  {
    if fs.Field? { InsertLiteral(k, v, fs.rest); }
  }

  lemma {:induction false} SortLiteral(fs: Fields)
    requires FieldsLiteral(fs)
    ensures FieldsLiteral(SortFields(fs))
  {
    if fs.Field? {
      SortLiteral(fs.rest);
      InsertLiteral(fs.key, fs.value, SortFields(fs.rest));
    }
  }

  lemma {:induction false} CanonLiteral(v: Value)
    requires Readable(v)
    ensures Literal(Canon(v))
  {
    if v.Arr? {
      CanonItemsLiteral(v.items);
    } else if v.Obj? {
      CanonFieldsLiteral(v.fields);
      SortLiteral(CanonFields(v.fields));
    }
  }

  lemma {:induction false} CanonItemsLiteral(items: Values)
    requires ItemsReadable(items)
    ensures ItemsLiteral(CanonItems(items))
  {
    if items.Item? {
      CanonLiteral(items.head);
      CanonItemsLiteral(items.tail);
    }
  }

  lemma {:induction false} CanonFieldsLiteral(fs: Fields)
    requires FieldsReadable(fs)
    ensures FieldsLiteral(CanonFields(fs))
  {
    if fs.Field? {
      CanonLiteral(fs.value);
      CanonFieldsLiteral(fs.rest);
    }
  }

  /** Reading a printed value gives the value and what follows it. */
  lemma {:induction false} ReadShown(v: Value, rest: string)
    requires Literal(v) && Delimited(rest)
    ensures ReadValue(Show(v) + rest) == Some((v, rest))
    decreases v
  {
    hide ReadValue, ShowItems, ShowFields, ReadQuoted;
    match v
    case Null => ReadShownWord("invalid", Null, rest);
    case Bool(b) => if b { ReadShownWord("true", v, rest); } else { ReadShownWord("false", v, rest); }
    case Str(text) => ReadShownText(text, rest);
    case Num(digits) => ReadShownNumber(digits, rest);
    case Arr(items) => ReadShownArray(items, rest);
    case Obj(fields) => ReadShownObject(fields, rest);
  }

  lemma ReadShownWord(word: string, v: Value, rest: string)
    requires (word, v) == ("invalid", Null) || (word, v) == ("true", Bool(true)) || (word, v) == ("false", Bool(false))
    ensures ReadValue(word + rest) == Some((v, rest))
  {
    assert (word + rest)[0] == word[0] && word <= word + rest && (word + rest)[|word|..] == rest;
  }

  lemma ReadShownText(text: string, rest: string)
    requires Delimited(rest)
    ensures ReadValue(Quoted(text) + rest) == Some((Str(text), rest))
  {
    var s := Quoted(text) + rest;
    var inner := DoubleQuotes(text) + "\"" + rest;
    assert s[0] == '"' && s[1..] == inner;
    ReadQuotedOf(text, rest);
  }

  lemma ReadShownNumber(digits: string, rest: string)
    requires IsNumText(digits) && Delimited(rest)
    ensures ReadValue(digits + rest) == Some((Num(digits), rest))
  {
    assert (digits + rest)[0] == digits[0];
    ReadSpanOf(digits, rest, IsNumChar);
  }

  lemma {:induction false} ReadShownArray(items: Values, rest: string)
    requires ItemsLiteral(items)
    ensures ReadValue(Show(Arr(items)) + rest) == Some((Arr(items), rest))
    decreases items, 1
  {
    hide ReadItems, ShowItems;
    var s := Show(Arr(items)) + rest;
    if items.End? {
      assert ShowItems(End) == "" by { NoItems(); }
      assert s[0] == '[' && s[1..] == "]" + rest && s[2..] == rest;
    } else {
      var inner := ShowItems(items) + "]" + rest;
      assert s[0] == '[' && s[1..] == inner;
      ItemsStart(items);
      assert inner[0] != ']';
      ReadShownItems(items, rest);
    }
  }

  lemma NoItems()
    ensures ShowItems(End) == ""
  {
  }

  lemma {:induction false} ReadShownObject(fields: Fields, rest: string)
    requires FieldsLiteral(fields)
    ensures ReadValue(Show(Obj(fields)) + rest) == Some((Obj(fields), rest))
    decreases fields, 1
  {
    hide ReadFields, ShowFields;
    var s := Show(Obj(fields)) + rest;
    if fields.NoFields? {
      assert ShowFields(NoFields) == "" by { NoShownFields(); }
      assert s[0] == '{' && s[1..] == "  }" + rest && s[4..] == rest;
    } else {
      var inner := ShowFields(fields) + " }" + rest;
      assert s[0] == '{' && s[1..] == " " + inner && s[2..] == inner;
      assert !("  }" <= s[1..]) by { FieldsStart(fields, rest); }
      ReadShownFields(fields, rest);
    }
  }

  lemma NoShownFields()
    ensures ShowFields(NoFields) == ""
  {
  }

  /** No printed list of fields looks like the end of an empty object. */
  lemma FieldsStart(fields: Fields, rest: string)
    requires fields.Field? && IsKey(fields.key)
    ensures var inner := ShowFields(fields) + " }" + rest; !("  }" <= " " + inner)
  {
    hide ShowFields, Show;
    var k, inner := fields.key, ShowFields(fields) + " }" + rest;
    ShownFieldsParts(fields, rest);
    assert k <= inner && inner[|k|] == ':';
    assert (" " + inner)[1] == inner[0] && (" " + inner)[2] == inner[1];
  }

  /** No printed value starts with a closing bracket. */
  lemma ItemsStart(items: Values)
    requires items.Item? && ItemsLiteral(items)
    ensures ShowItems(items) != "" && ShowItems(items)[0] != ']'
  {
    var v := items.head;
    assert Show(v) != "" && Show(v)[0] != ']';
    assert Show(v) <= ShowItems(items);
  }

  lemma {:induction false} ReadShownItems(items: Values, rest: string)
    requires items.Item? && ItemsLiteral(items)
    ensures ReadItems(ShowItems(items) + "]" + rest) == Some((items, rest))
    decreases items, 0
  {
    hide ReadValue, ShowItems, Show;
    var v, more := items.head, items.tail;
    var after := if more.End? then "]" + rest else ", " + (ShowItems(more) + "]" + rest);
    ShownItemsParts(items, rest);
    ReadShown(v, after);
    if more.End? {
      assert after[1..] == rest && "]" <= after;
    } else {
      assert after[2..] == ShowItems(more) + "]" + rest && ", " <= after && after[0] == ',';
      ReadShownItems(more, rest);
    }
  }

  lemma ShownItemsParts(items: Values, rest: string)
    requires items.Item?
    ensures ShowItems(items) + "]" + rest
         == Show(items.head) + if items.tail.End? then "]" + rest else ", " + (ShowItems(items.tail) + "]" + rest)
  {
    hide Show;
  }

  lemma {:induction false} ReadShownFields(fs: Fields, rest: string)
    requires fs.Field? && FieldsLiteral(fs)
    ensures ReadFields(ShowFields(fs) + " }" + rest) == Some((fs, rest))
    decreases fs, 0
  {
    hide ReadValue, ShowFields, Show;
    var k, v, more := fs.key, fs.value, fs.rest;
    var after := if more.NoFields? then " }" + rest else ", " + (ShowFields(more) + " }" + rest);
    ShownFieldsParts(fs, rest);
    var afterKey := ": " + (Show(v) + after);
    assert afterKey[0] == ':' && !IsKeyChar(':');
    ReadSpanOf(k, afterKey, IsKeyChar);
    assert afterKey[2..] == Show(v) + after && ": " <= afterKey;
    ReadShown(v, after);
    if more.NoFields? {
      assert after[2..] == rest && " }" <= after;
    } else {
      assert after[2..] == ShowFields(more) + " }" + rest && ", " <= after && after[0] == ',';
      ReadShownFields(more, rest);
    }
  }

  lemma ShownFieldsParts(fs: Fields, rest: string)
    requires fs.Field?
    ensures ShowFields(fs) + " }" + rest
         == fs.key + (": " + (Show(fs.value)
            + if fs.rest.NoFields? then " }" + rest else ", " + (ShowFields(fs.rest) + " }" + rest)))
  {
    hide Show;
  }

  // ---------------------------------------------------------------- the text determines the value

  /** The reader inverts the printer, up to canonical form. */
  lemma PrintedIsRead(v: Value)
    requires Readable(v)
    ensures ReadValue(Text(v)) == Some((Canon(v), ""))
  {
    TextIsShownCanon(v);
    CanonLiteral(v);
    ReadShown(Canon(v), "");
    assert Show(Canon(v)) + "" == Show(Canon(v));
  }

  /** Values that can be printed print to the same text exactly when they are the same. */
  lemma PrintedAlikeIffSame(a: Value, b: Value)
    requires Readable(a) && Readable(b) && KeysDistinct(a) && KeysDistinct(b)
    requires StringifyAsBsValue(a).Some? && StringifyAsBsValue(b).Some?
    ensures StringifyAsBsValue(a) == StringifyAsBsValue(b) <==> Same(a, b)
  {
    PrintedIsRead(a);
    PrintedIsRead(b);
    TextIsShownCanon(a);
    TextIsShownCanon(b);
    SameIffCanon(a, b);
  }

  lemma OneFieldText(k: string)
    ensures FieldTexts(Field(k, Bool(true), NoFields)) == [(k, "true")]
    ensures JoinPairs(SortBy([(k, "true")], KeyOf)) == k + ": " + "true"
  {
    assert [(k, "true")][1..] == [];
    assert k + ": " + "true" + "" == k + ": " + "true";
  }

  lemma TwoFieldsText()
    ensures JoinPairs(SortBy(FieldTexts(Field("x", Bool(true), Field("y", Bool(true), NoFields))), KeyOf))
         == "x: true, y: true"
  {
    var x, y := ("x", "true"), ("y", "true");
    OneFieldText("y");
    assert FieldTexts(Field("x", Bool(true), Field("y", Bool(true), NoFields))) == [x, y];
    assert [x, y][1..] == [y] && [y][1..] == [];
    assert SortBy([y], KeyOf) == [y];
    assert Less("x", "y");
    LessAsymmetric("x", "y");
    assert SortBy([x, y], KeyOf) == [x, y];
    assert JoinPairs([y]) == "y: true" by { assert SortBy([y], KeyOf) == [y]; }
  }

  lemma OneFieldObject(k: string)
    ensures Text(Obj(Field(k, Bool(true), NoFields))) == "{ " + k + ": true }"
  {
    OneFieldText(k);
  }

  lemma {:induction false} NothingDoubled(s: string)
    requires '"' !in s
    ensures DoubleQuotes(s) == s
  {
    if s != "" {
      assert s[0] in s;
      NothingDoubled(s[1..]);
    }
  }

  /** With a colon in a key, different values can print alike. */
  lemma ColonKeysAreAmbiguous()
    ensures var a := Obj(Field("x", Bool(true), Field("y", Bool(true), NoFields)));
            var b := Obj(Field("x: true, y", Bool(true), NoFields));
            Text(a) == Text(b) && !Same(a, b)
  {
    var a := Obj(Field("x", Bool(true), Field("y", Bool(true), NoFields)));
    var b := Obj(Field("x: true, y", Bool(true), NoFields));
    TwoFieldsText();
    assert Text(a) == "{ x: true, y: true }";
    assert Text(b) == "{ x: true, y: true }" by {
      hide Text;
      OneFieldObject("x: true, y");
    }
    assert "y" !in Keys(b.fields);
  }

  lemma TwoItemsText(a: Value, b: Value)
    ensures Text(Arr(Item(a, Item(b, End)))) == "[" + (Text(a) + ", " + Text(b)) + "]"
  {
    assert ItemTexts(Item(b, End)) == Text(b);
    assert ItemTexts(Item(a, Item(b, End))) == Text(a) + ", " + Text(b);
  }

  lemma ThreeItemsText(a: Value, b: Value, c: Value)
    ensures Text(Arr(Item(a, Item(b, Item(c, End))))) == "[" + (Text(a) + ", " + (Text(b) + ", " + Text(c))) + "]"
  {
    assert ItemTexts(Item(c, End)) == Text(c);
    assert ItemTexts(Item(b, Item(c, End))) == Text(b) + ", " + Text(c);
    assert ItemTexts(Item(a, Item(b, Item(c, End)))) == Text(a) + ", " + (Text(b) + ", " + Text(c));
  }

  lemma OtherHeadNotSame(fs: Fields, xs: Values, ys: Values)
    requires fs.Field?
    ensures !Same(Arr(Item(Obj(fs), xs)), Arr(Item(Obj(NoFields), ys)))
  {
    assert !Same(Obj(fs), Obj(NoFields));
    assert !SameItems(Item(Obj(fs), xs), Item(Obj(NoFields), ys));
  }

  lemma NoFieldsText()
    ensures Text(Obj(NoFields)) == "{  }"
  {
  }

  lemma PlainText(s: string)
    requires '"' !in s
    ensures Text(Str(s)) == "\"" + s + "\""
  {
    NothingDoubled(s);
  }

  lemma BraceTexts()
    ensures Text(Obj(NoFields)) == "{  }" && Text(Obj(Field("k", Bool(true), NoFields))) == "{ k: true }"
    ensures Text(Obj(Field(" }, \"a", Bool(true), NoFields))) == "{  }" + ", " + "\"a: true }"
    ensures Text(Obj(Field(" }, \", { k", Bool(true), NoFields))) == "{  }" + ", \", " + "{ k: true }"
    ensures Text(Str("a: true }, {  }, ")) == "\"a: true }" + ", " + "{  }" + ", \""
  {
    hide Text;
    NoFieldsText();
    OneFieldObject("k");
    OneFieldObject(" }, \"a");
    OneFieldObject(" }, \", { k");
    PlainText("a: true }, {  }, ");
  }

  lemma Regrouped(none: string, p: string, k: string)
    ensures (none + ", " + p) + ", " + (none + ", \", " + k) == none + ", " + ((p + ", " + none + ", \"") + ", " + k)
  {
  }

  /** So they can with keys that begin like the end of an empty object, colons or not. */
  lemma BraceKeysAreAmbiguous()
    ensures var a := Arr(Item(Obj(Field(" }, \"a", Bool(true), NoFields)),
                         Item(Obj(Field(" }, \", { k", Bool(true), NoFields)), End)));
            var b := Arr(Item(Obj(NoFields), Item(Str("a: true }, {  }, "),
                         Item(Obj(Field("k", Bool(true), NoFields)), End))));
            Text(a) == Text(b) && !Same(a, b)
  {
    hide Text, Same;
    var x, y := Obj(Field(" }, \"a", Bool(true), NoFields)), Obj(Field(" }, \", { k", Bool(true), NoFields));
    var none, text, k := Obj(NoFields), Str("a: true }, {  }, "), Obj(Field("k", Bool(true), NoFields));
    TwoItemsText(x, y);
    ThreeItemsText(none, text, k);
    BraceTexts();
    Regrouped("{  }", "\"a: true }", "{ k: true }");
    OtherHeadNotSame(x.fields, Item(y, End), Item(text, Item(k, End)));
  }
}

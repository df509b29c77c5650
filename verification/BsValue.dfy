/**
 Configuration values printed as BrightScript literals. Objects print their fields in the order of their keys; what
 BrightScript has no literal for prints as `invalid`. A reader for the printed grammar shows that the text determines
 the value, up to the order of fields and the values that print as `invalid`.
 */
module BsValue {
  import opened Wrappers
  import opened Order
  import opened Seqs

  /** A finite value tree. A number is given by its decimal text; `Unprintable` stands for functions and the like. */
  datatype Value =
    | Null | Undefined | NonFinite | Unprintable
    | Str(text: string) | Num(digits: string) | Bool(b: bool) | Arr(items: Values) | Obj(fields: Fields)

  datatype Values = End | Item(head: Value, tail: Values)

  datatype Fields = NoFields | Field(key: string, value: Value, rest: Fields)

  // ---------------------------------------------------------------- printing

  predicate IsControl(c: char) { c < ' ' || c == '\U{007F}' }

  /** A double quote is written twice; there is no other escape. */
  function DoubleQuotes(s: string): string {
    if s == [] then [] else (if s[0] == '"' then "\"\"" else [s[0]]) + DoubleQuotes(s[1..])
  }

  function Quoted(s: string): string { "\"" + DoubleQuotes(s) + "\"" }

  /** Whether some string in the value holds a character that no literal can hold. */
  predicate HasControl(v: Value) {
    match v
    case Str(s) => exists c :: c in s && IsControl(c)
    case Arr(items) => ItemsHaveControl(items)
    case Obj(fields) => FieldsHaveControl(fields)
    case _ => false
  }

  predicate ItemsHaveControl(items: Values) { items.Item? && (HasControl(items.head) || ItemsHaveControl(items.tail)) }

  predicate FieldsHaveControl(fs: Fields) { fs.Field? && (HasControl(fs.value) || FieldsHaveControl(fs.rest)) }

  type Pair = (string, string)

  function KeyOf(p: Pair): string { p.0 }

  function JoinPairs(ps: seq<Pair>): string {
    if ps == [] then ""
    else ps[0].0 + ": " + ps[0].1 + if |ps| == 1 then "" else ", " + JoinPairs(ps[1..])
  }

  function Text(v: Value): string {
    match v
    case Str(s) => Quoted(s)
    case Num(digits) => digits
    case Bool(b) => if b then "true" else "false"
    case Arr(items) => "[" + ItemTexts(items) + "]"
    case Obj(fields) => "{ " + JoinPairs(SortBy(FieldTexts(fields), KeyOf)) + " }"
    case _ => "invalid"
  }

  function ItemTexts(items: Values): string {
    match items
    case End => ""
    case Item(v, End) => Text(v)
    case Item(v, more) => Text(v) + ", " + ItemTexts(more)
  }

  function FieldTexts(fs: Fields): seq<Pair> {
    match fs
    case NoFields => []
    case Field(k, v, more) => [(k, Text(v))] + FieldTexts(more)
  }

  /** The printed value, or nothing if a string cannot be written as a literal. */
  function StringifyAsBsValue(v: Value): Option<string> { if HasControl(v) then None else Some(Text(v)) }

  /** All strings in a value, at any depth; keys are not among them. */
  function StringsIn(v: Value): set<string> {
    match v
    case Str(s) => {s}
    case Arr(items) => ItemStrings(items)
    case Obj(fields) => FieldStrings(fields)
    case _ => {}
  }

  function ItemStrings(items: Values): set<string> {
    if items.End? then {} else StringsIn(items.head) + ItemStrings(items.tail)
  }

  function FieldStrings(fs: Fields): set<string> {
    if fs.NoFields? then {} else StringsIn(fs.value) + FieldStrings(fs.rest)
  }

  /** A string with a character below the space, or with a delete character. */
  ghost predicate Unwritable(s: string) { exists c :: c in s && (c as int < 32 || c as int == 127) }

  lemma ControlIs(s: string)
    ensures (exists c :: c in s && IsControl(c)) <==> Unwritable(s)
  {
    assert forall c :: IsControl(c) <==> c as int < 32 || c as int == 127;
  }

  lemma {:induction false} HasControlIff(v: Value)
    ensures HasControl(v) <==> exists s :: s in StringsIn(v) && Unwritable(s)
  {
    hide IsControl, Unwritable;
    match v
    case Str(s) =>
      ControlIs(s);
      assert StringsIn(v) == {s};
    case Arr(items) => ItemsHaveControlIff(items);
    case Obj(fields) => FieldsHaveControlIff(fields);
    case _ =>
  }

  lemma {:induction false} ItemsHaveControlIff(items: Values)
    ensures ItemsHaveControl(items) <==> exists s :: s in ItemStrings(items) && Unwritable(s)
  {
    if items.Item? {
      HasControlIff(items.head);
      ItemsHaveControlIff(items.tail);
    }
  }

  lemma {:induction false} FieldsHaveControlIff(fs: Fields)
    ensures FieldsHaveControl(fs) <==> exists s :: s in FieldStrings(fs) && Unwritable(s)
  {
    if fs.Field? {
      HasControlIff(fs.value);
      FieldsHaveControlIff(fs.rest);
    }
  }

  /** A value is refused exactly if some string in it, at any depth, cannot be written. */
  lemma RefusedIff(v: Value)
    ensures StringifyAsBsValue(v) == None <==> exists s :: s in StringsIn(v) && Unwritable(s)
    ensures StringifyAsBsValue(v).Some? ==> StringifyAsBsValue(v).value == Text(v)
  {
    HasControlIff(v);
  }

  // ---------------------------------------------------------------- sameness

  function Keys(fs: Fields): set<string> { if fs.NoFields? then {} else {fs.key} + Keys(fs.rest) }

  function Get(fs: Fields, k: string): Value
    requires k in Keys(fs)
  {
    if fs.key == k then fs.value else Get(fs.rest, k)
  }

  predicate PrintsInvalid(v: Value) { v.Null? || v.Undefined? || v.NonFinite? || v.Unprintable? }

  /** Equal up to the order of fields and the values that have no literal. */
  predicate Same(a: Value, b: Value) {
    match a
    case Str(_) => a == b
    case Num(_) => a == b
    case Bool(_) => a == b
    case Arr(items) => b.Arr? && SameItems(items, b.items)
    case Obj(fields) => b.Obj? && Keys(b.fields) <= Keys(fields) && Covered(fields, b.fields)
    case _ => PrintsInvalid(b)
  }

  predicate SameItems(xs: Values, ys: Values) {
    match xs
    case End => ys.End?
    case Item(x, more) => ys.Item? && Same(x, ys.head) && SameItems(more, ys.tail)
  }

  /** Every field of the one has a field of the other under its key, with the same value. */
  predicate Covered(fs: Fields, gs: Fields) {
    match fs
    case NoFields => true
    case Field(k, v, more) => k in Keys(gs) && Same(v, Get(gs, k)) && Covered(more, gs)
  }

  // ---------------------------------------------------------------- canonical form

  function InsertField(k: string, v: Value, fs: Fields): Fields {
    if fs.NoFields? then Field(k, v, NoFields)
    else if Less(fs.key, k) then Field(fs.key, fs.value, InsertField(k, v, fs.rest))
    else Field(k, v, fs)
  }

  function SortFields(fs: Fields): Fields {
    if fs.NoFields? then NoFields else InsertField(fs.key, fs.value, SortFields(fs.rest))
  }

  function Canon(v: Value): Value {
    match v
    case Str(_) => v
    case Num(_) => v
    case Bool(_) => v
    case Arr(items) => Arr(CanonItems(items))
    case Obj(fields) => Obj(SortFields(CanonFields(fields)))
    case _ => Null
  }

  function CanonItems(items: Values): Values {
    if items.End? then End else Item(Canon(items.head), CanonItems(items.tail))
  }

  function CanonFields(fs: Fields): Fields {
    if fs.NoFields? then NoFields else Field(fs.key, Canon(fs.value), CanonFields(fs.rest))
  }

  /** Keys of an object are distinct, at every depth. */
  predicate KeysDistinct(v: Value) {
    match v
    case Arr(items) => ItemsKeysDistinct(items)
    case Obj(fields) => FieldsKeysDistinct(fields)
    case _ => true
  }

  predicate ItemsKeysDistinct(items: Values) {
    items.Item? ==> KeysDistinct(items.head) && ItemsKeysDistinct(items.tail)
  }

  predicate FieldsKeysDistinct(fs: Fields) {
    fs.Field? ==> fs.key !in Keys(fs.rest) && KeysDistinct(fs.value) && FieldsKeysDistinct(fs.rest)
  }

  /** All objects in a value, at any depth. */
  function ObjectsIn(v: Value): set<Fields> {
    match v
    case Arr(items) => ItemObjects(items)
    case Obj(fields) => {fields} + FieldObjects(fields)
    case _ => {}
  }

  function ItemObjects(items: Values): set<Fields> {
    if items.End? then {} else ObjectsIn(items.head) + ItemObjects(items.tail)
  }

  function FieldObjects(fs: Fields): set<Fields> {
    if fs.NoFields? then {} else ObjectsIn(fs.value) + FieldObjects(fs.rest)
  }

  function KeyList(fs: Fields): seq<string> { if fs.NoFields? then [] else [fs.key] + KeyList(fs.rest) }

  lemma {:induction false} KeyListIs(fs: Fields)
    ensures ToSet(KeyList(fs)) == Keys(fs)
    ensures Unique(fs) <==> Distinct(KeyList(fs))
  {
    if fs.Field? {
      hide Distinct;
      KeyListIs(fs.rest);
      DistinctSplits(fs.key, KeyList(fs.rest));
      assert ToSet([fs.key] + KeyList(fs.rest)) == {fs.key} + ToSet(KeyList(fs.rest));
      assert fs.key in KeyList(fs.rest) <==> fs.key in ToSet(KeyList(fs.rest));
    }
  }

  /** Keys are distinct exactly if no object, at any depth, lists a key twice. */
  lemma {:induction false} KeysDistinctIff(v: Value)
    ensures KeysDistinct(v) <==> forall o :: o in ObjectsIn(v) ==> Distinct(KeyList(o))
  {
    hide Distinct;
    match v
    case Arr(items) => ItemsKeysDistinctIff(items);
    case Obj(fields) =>
      FieldsKeysDistinctIff(fields);
      KeyListIs(fields);
    case _ =>
  }

  lemma {:induction false} ItemsKeysDistinctIff(items: Values)
    ensures ItemsKeysDistinct(items) <==> forall o :: o in ItemObjects(items) ==> Distinct(KeyList(o))
  {
    hide Distinct;
    if items.Item? {
      KeysDistinctIff(items.head);
      ItemsKeysDistinctIff(items.tail);
    }
  }

  lemma {:induction false} FieldsKeysDistinctIff(fs: Fields)
    ensures FieldsKeysDistinct(fs) <==> Unique(fs) && forall o :: o in FieldObjects(fs) ==> Distinct(KeyList(o))
  {
    hide Distinct;
    if fs.Field? {
      KeysDistinctIff(fs.value);
      FieldsKeysDistinctIff(fs.rest);
    }
  }

  predicate Unique(fs: Fields) { fs.Field? ==> fs.key !in Keys(fs.rest) && Unique(fs.rest) }

  ghost predicate Ascends(fs: Fields) {
    fs.Field? ==> (forall k :: k in Keys(fs.rest) ==> Less(fs.key, k)) && Ascends(fs.rest)
  }

  lemma {:induction false} InsertFieldGet(k: string, v: Value, fs: Fields)
    requires k !in Keys(fs) && Ascends(fs)
    ensures Keys(InsertField(k, v, fs)) == Keys(fs) + {k} && Ascends(InsertField(k, v, fs))
    ensures Get(InsertField(k, v, fs), k) == v
    ensures forall j :: j in Keys(fs) ==> Get(InsertField(k, v, fs), j) == Get(fs, j)
  {
    if fs.Field? {
      LessTotal(fs.key, k);
      if Less(fs.key, k) {
        InsertFieldGet(k, v, fs.rest);
      } else {
        forall j | j in Keys(fs.rest) ensures Less(k, j) { LessTransitive(k, fs.key, j); }
      }
    }
  }

  lemma {:induction false} SortFieldsGet(fs: Fields)
    requires Unique(fs)
    ensures Keys(SortFields(fs)) == Keys(fs) && Ascends(SortFields(fs))
    ensures forall k :: k in Keys(fs) ==> Get(SortFields(fs), k) == Get(fs, k)
  {
    if fs.Field? {
      SortFieldsGet(fs.rest);
      InsertFieldGet(fs.key, fs.value, SortFields(fs.rest));
    }
  }

  lemma {:induction false} AscendingFieldsEqual(fs: Fields, gs: Fields)
    requires Ascends(fs) && Ascends(gs) && Keys(fs) == Keys(gs)
    requires forall k :: k in Keys(fs) ==> Get(fs, k) == Get(gs, k)
    ensures fs == gs
  {
    if fs.Field? {
      assert fs.key in Keys(gs) && gs.Field?;
      assert gs.key in Keys(fs);
      if fs.key != gs.key { LessAsymmetric(fs.key, gs.key); }
      KeyNotInRest(fs);
      KeyNotInRest(gs);
      assert Keys(fs.rest) == Keys(fs) - {fs.key} && Keys(gs.rest) == Keys(gs) - {gs.key};
      forall k | k in Keys(fs.rest) ensures Get(fs.rest, k) == Get(gs.rest, k) {
        assert k in Keys(fs) && Get(fs, k) == Get(gs, k);
      }
      AscendingFieldsEqual(fs.rest, gs.rest);
    } else {
      assert Keys(gs) == {};
    }
  }

  lemma KeyNotInRest(fs: Fields)
    requires Ascends(fs) && fs.Field?
    ensures fs.key !in Keys(fs.rest)
  {
    LessIrreflexive(fs.key);
  }

  lemma {:induction false} CanonFieldsGet(fs: Fields)
    ensures Keys(CanonFields(fs)) == Keys(fs)
    ensures forall k :: k in Keys(fs) ==> Get(CanonFields(fs), k) == Canon(Get(fs, k))
    ensures FieldsKeysDistinct(fs) ==> Unique(CanonFields(fs))
  {
    if fs.Field? { CanonFieldsGet(fs.rest); }
  }

  /** Field lists have the same sorted canonical form exactly when they agree under every key. */
  lemma SortedCanonIff(fs: Fields, gs: Fields)
    requires FieldsKeysDistinct(fs) && FieldsKeysDistinct(gs)
    ensures SortFields(CanonFields(fs)) == SortFields(CanonFields(gs))
       <==> Keys(fs) == Keys(gs) && forall k :: k in Keys(fs) ==> Canon(Get(fs, k)) == Canon(Get(gs, k))
  {
    hide Canon, SortFields, Ascends;
    CanonFieldsGet(fs);
    CanonFieldsGet(gs);
    SortFieldsGet(CanonFields(fs));
    SortFieldsGet(CanonFields(gs));
    if Keys(fs) == Keys(gs) && forall k :: k in Keys(fs) ==> Canon(Get(fs, k)) == Canon(Get(gs, k)) {
      AscendingFieldsEqual(SortFields(CanonFields(fs)), SortFields(CanonFields(gs)));
    }
  }

  /** Values are the same exactly when they have the same canonical form. */
  lemma {:induction false} SameIffCanon(a: Value, b: Value)
    requires KeysDistinct(a) && KeysDistinct(b)
    ensures Same(a, b) <==> Canon(a) == Canon(b)
  {
    if a.Arr? && b.Arr? {
      SameItemsIffCanon(a.items, b.items);
    } else if a.Obj? && b.Obj? {
      CoveredIffCanon(a.fields, b.fields);
      SortedCanonIff(a.fields, b.fields);
    }
  }

  lemma {:induction false} SameItemsIffCanon(xs: Values, ys: Values)
    requires ItemsKeysDistinct(xs) && ItemsKeysDistinct(ys)
    ensures SameItems(xs, ys) <==> CanonItems(xs) == CanonItems(ys)
  {
    if xs.Item? && ys.Item? {
      SameIffCanon(xs.head, ys.head);
      SameItemsIffCanon(xs.tail, ys.tail);
    }
  }

  lemma {:induction false} CoveredIffCanon(fs: Fields, gs: Fields)
    requires FieldsKeysDistinct(fs) && FieldsKeysDistinct(gs)
    ensures Covered(fs, gs)
       <==> Keys(fs) <= Keys(gs) && forall k :: k in Keys(fs) ==> Canon(Get(fs, k)) == Canon(Get(gs, k))
  {
    if fs.Field? {
      if fs.key in Keys(gs) {
        GetKeysDistinct(gs, fs.key);
        SameIffCanon(fs.value, Get(gs, fs.key));
      }
      CoveredIffCanon(fs.rest, gs);
      assert forall k :: k in Keys(fs.rest) ==> Get(fs, k) == Get(fs.rest, k);
    }
  }

  lemma {:induction false} GetKeysDistinct(fs: Fields, k: string)
    requires FieldsKeysDistinct(fs) && k in Keys(fs)
    ensures KeysDistinct(Get(fs, k))
  {
    if fs.key != k { GetKeysDistinct(fs.rest, k); }
  }

  // ---------------------------------------------------------------- the text is that of the canonical form

  /** Prints fields in the order they are in. */
  function Show(v: Value): string {
    match v
    case Str(s) => Quoted(s)
    case Num(digits) => digits
    case Bool(b) => if b then "true" else "false"
    case Arr(items) => "[" + ShowItems(items) + "]"
    case Obj(fields) => "{ " + ShowFields(fields) + " }"
    case _ => "invalid"
  }

  function ShowItems(items: Values): string {
    match items
    case End => ""
    case Item(v, End) => Show(v)
    case Item(v, more) => Show(v) + ", " + ShowItems(more)
  }

  function ShowFields(fs: Fields): string {
    match fs
    case NoFields => ""
    case Field(k, v, NoFields) => k + ": " + Show(v)
    case Field(k, v, more) => k + ": " + Show(v) + ", " + ShowFields(more)
  }

  function ShowPairs(fs: Fields): seq<Pair> {
    if fs.NoFields? then [] else [(fs.key, Show(fs.value))] + ShowPairs(fs.rest)
  }

  lemma {:induction false} JoinShownPairs(fs: Fields)
    ensures JoinPairs(ShowPairs(fs)) == ShowFields(fs)
  {
    if fs.Field? { JoinShownPairs(fs.rest); }
  }

  lemma {:induction false} InsertShown(k: string, v: Value, fs: Fields)
    ensures ShowPairs(InsertField(k, v, fs)) == InsertBy((k, Show(v)), ShowPairs(fs), KeyOf)
  {
    if fs.Field? { InsertShown(k, v, fs.rest); }
  }

  lemma {:induction false} SortShown(fs: Fields)
    ensures ShowPairs(SortFields(fs)) == SortBy(ShowPairs(fs), KeyOf)
  {
    if fs.Field? {
      SortShown(fs.rest);
      InsertShown(fs.key, fs.value, SortFields(fs.rest));
    }
  }

  lemma {:induction false} TextIsShownCanon(v: Value)
    ensures Text(v) == Show(Canon(v))
  {
    if v.Arr? {
      ItemTextsAreShown(v.items);
    } else if v.Obj? {
      FieldTextsAreShown(v.fields);
      SortShown(CanonFields(v.fields));
      JoinShownPairs(SortFields(CanonFields(v.fields)));
    }
  }

  lemma {:induction false} ItemTextsAreShown(items: Values)
    ensures ItemTexts(items) == ShowItems(CanonItems(items))
  {
    if items.Item? {
      TextIsShownCanon(items.head);
      ItemTextsAreShown(items.tail);
    }
  }

  lemma {:induction false} FieldTextsAreShown(fs: Fields)
    ensures FieldTexts(fs) == ShowPairs(CanonFields(fs))
  {
    if fs.Field? {
      TextIsShownCanon(fs.value);
      FieldTextsAreShown(fs.rest);
    }
  }
}

/**
 The response half of the wire codec, in the layout of the real wire: `[error_code:4][data...]`.
 The payload names no kind; the reader supplies the kind it expects.
 */
module WireResponses {
  import opened Wrappers
  import opened Bytes
  import opened Messages

  // ---------------------------------------------------------------- code tables

  function StopReasonCode(r: StopReason): int {
    match r
    case Undefined => 0
    case NotStopped => 1
    case NormalExit => 2
    case StopStatement => 3
    case Break => 4
    case RuntimeError => 5
    case CaughtRuntimeError => 6
  }

  function StopReasonOf(code: int): StopReason {
    if code == 1 then NotStopped
    else if code == 2 then NormalExit
    else if code == 3 then StopStatement
    else if code == 4 then Break
    else if code == 5 then RuntimeError
    else if code == 6 then CaughtRuntimeError
    else Undefined
  }

  const VARIABLE_TYPES: seq<VarType> := [
    AssociativeArray, Array, Boolean, Double, Float, Function, Integer, Interface, Invalid, List,
    LongInteger, Object, String, Subroutine, SubtypedObject, Uninitialized, Unknown]

  /** The code of a type name, or 0 for a name that the table lacks. */
  function TableCode(t: VarType): (code: nat)
    ensures code <= 17
    ensures code == 0 <==> t.OtherType?
    ensures code > 0 ==> VARIABLE_TYPES[code - 1] == t
  {
    match t
    case AssociativeArray => 1
    case Array => 2
    case Boolean => 3
    case Double => 4
    case Float => 5
    case Function => 6
    case Integer => 7
    case Interface => 8
    case Invalid => 9
    case List => 10
    case LongInteger => 11
    case Object => 12
    case String => 13
    case Subroutine => 14
    case SubtypedObject => 15
    case Uninitialized => 16
    case Unknown => 17
    case OtherType(_) => 0
  }

  function TypeOf(code: int): VarType {
    if 1 <= code <= 17 then VARIABLE_TYPES[code - 1] else Unknown
  }

  /** The type a variable is written with: an unlisted name becomes Unknown. */
  function WireType(t: VarType): VarType { if t.OtherType? then Unknown else t }

  lemma WireTypeCode(t: VarType)
    ensures 1 <= TableCode(WireType(t)) <= 17 && TypeOf(TableCode(WireType(t))) == WireType(t)
  {
  }

  lemma StopReasonCodes(r: StopReason)
    ensures 0 <= StopReasonCode(r) <= 6 && StopReasonOf(StopReasonCode(r)) == r
  {
  }

  // ---------------------------------------------------------------- values

  /** The types whose value stands on the wire. */
  predicate HasValue(t: VarType) {
    !(t.Array? || t.AssociativeArray? || t.List? || t.Uninitialized? || t.Unknown? || t.Invalid?)
  }

  predicate IsStringLike(t: VarType) {
    t.String? || t.Object? || t.Function? || t.Interface? || t.Subroutine?
  }

  function TextOf(v: VarValue): Text { if v.Str? then v.s else [] }

  function WholeOf(v: VarValue): int { if v.Whole? then v.n else 0 }

  function Float32Of(v: VarValue): Bytes { if v.Bits32? then v.f else [0, 0, 0, 0] }

  function Float64Of(v: VarValue): Bytes { if v.Bits64? then v.d else [0, 0, 0, 0, 0, 0, 0, 0] }

  const SEMICOLON: byte := 59
  const SPACE: byte := 32

  /** The index of the first "; ". */
  function FindSeparator(s: Bytes, from: nat): (r: Option<nat>)
    ensures r.Some? ==> r.value + 2 <= |s|
    decreases |s| - from
  {
    if from + 2 > |s| then None
    else if s[from] == SEMICOLON && s[from + 1] == SPACE then Some(from)
    else FindSeparator(s, from + 1)
  }

  function TypeNamePart(s: Text): Text {
    match FindSeparator(s, 0)
    case None => s
    case Some(i) => s[..i]
  }

  function SubtypePart(s: Text): Text {
    match FindSeparator(s, 0)
    case None => []
    case Some(i) => s[i + 2..]
  }

  function JoinSubtype(typeName: Text, subtype: Text): Text {
    if subtype == [] then typeName else typeName + [SEMICOLON, SPACE] + subtype
  }

  function ValueBytes(t: VarType, v: VarValue): Bytes {
    if IsStringLike(t) then CStr(TextOf(v))
    else if t.SubtypedObject? then CStr(TypeNamePart(TextOf(v))) + CStr(SubtypePart(TextOf(v)))
    else if t.Boolean? then U8Bytes(if v == Bool(true) then 1 else 0)
    else if t.Integer? then U32Bytes(WholeOf(v))
    else if t.LongInteger? then I64Bytes(WholeOf(v))
    else if t.Float? then Float32Of(v)
    else if t.Double? then Float64Of(v)
    else []
  }

  /** The number, if there is one, has the shape and range that its type is written with. */
  predicate ValueFits(t: VarType, v: VarValue) {
    && (t.Integer? ==> IsI32(WholeOf(v)) && !v.Bits32? && !v.Bits64?)
    && (t.LongInteger? ==> IsI64(WholeOf(v)) && !v.Bits32? && !v.Bits64?)
    && (t.Float? ==> |Float32Of(v)| == 4 && !v.Whole? && !v.Bits64?)
    && (t.Double? ==> |Float64Of(v)| == 8 && !v.Whole? && !v.Bits32?)
  }

  function DecodeValue(t: VarType, buf: Bytes, offset: nat): Parsed<VarValue> {
    if IsStringLike(t) then
      var (s, o) :- ReadCStr(buf, offset);
      Ok(Str(s), o)
    else if t.SubtypedObject? then
      var (typeName, o1) :- ReadCStr(buf, offset);
      var (subtype, o2) :- ReadCStr(buf, o1);
      Ok(Str(JoinSubtype(typeName, subtype)), o2)
    else if t.Boolean? then
      var (b, o) :- ReadU8(buf, offset);
      Ok(Bool(b != 0), o)
    else if t.Integer? then
      var (n, o) :- ReadI32(buf, offset);
      Ok(Whole(n), o)
    else if t.LongInteger? then
      var (n, o) :- ReadI64(buf, offset);
      Ok(Whole(n), o)
    else if t.Float? then
      var (f, o) :- ReadBytes(buf, offset, 4);
      Ok(Bits32(f), o)
    else if t.Double? then
      var (d, o) :- ReadBytes(buf, offset, 8);
      Ok(Bits64(d), o)
    else Ok(Null, offset)
  }

  function NormValue(t: VarType, v: VarValue): VarValue {
    if IsStringLike(t) then Str(TextOf(v))
    else if t.SubtypedObject? then Str(JoinSubtype(TypeNamePart(TextOf(v)), SubtypePart(TextOf(v))))
    else if t.Boolean? then Bool(v == Bool(true))
    else if t.Integer? || t.LongInteger? then Whole(WholeOf(v))
    else if t.Float? then Bits32(Float32Of(v))
    else if t.Double? then Bits64(Float64Of(v))
    else Null
  }

  /** A subtyped name survives unless its first "; " ends it, in which case that separator is lost. */
  lemma SubtypedNameKept(s: Text)
    ensures var kept := JoinSubtype(TypeNamePart(s), SubtypePart(s));
            if FindSeparator(s, 0) == Some(|s| - 2) then kept == s[..|s| - 2] else kept == s
  {
    hide FindSeparator;
    FindSeparatorFinds(s, 0);
    var found := FindSeparator(s, 0);
    if found.Some? {
      var i := found.value;
      var front, back: Text := s[..i], s[i + 2..];
      assert TypeNamePart(s) == front && SubtypePart(s) == back;
      CutAtPair(s, i);
    }
  }

  lemma CutAtPair(s: Bytes, i: nat)
    requires i + 2 <= |s|
    ensures s[..i] + [s[i], s[i + 1]] + s[i + 2..] == s
  {
  }

  /** A semicolon and a space. */
  predicate SeparatorAt(s: Bytes, i: nat) { i + 2 <= |s| && s[i] == 59 && s[i + 1] == 32 }

  /** The first "; " at or after an index, if there is one. */
  lemma {:induction false} FindSeparatorFinds(s: Bytes, from: nat)
    ensures match FindSeparator(s, from)
            case Some(i) => from <= i && SeparatorAt(s, i) && forall j :: from <= j < i ==> !SeparatorAt(s, j)
            case None => forall j :: from <= j ==> !SeparatorAt(s, j)
    decreases |s| - from
  {
    if from + 2 <= |s| { FindSeparatorFinds(s, from + 1); }
  }

  lemma ValueRoundTrip(t: VarType, v: VarValue, buf: Bytes, offset: nat)
    requires ValueFits(t, v) && At(buf, offset, ValueBytes(t, v))
    ensures DecodeValue(t, buf, offset) == Ok(NormValue(t, v), offset + |ValueBytes(t, v)|)
  {
    hide At, U32Bytes, I64Bytes, U8Bytes, ReadU8, ReadI32, ReadI64, ReadBytes, ReadCStr, TypeNamePart, SubtypePart,
      JoinSubtype;
    if IsStringLike(t) {
      AtCStr(buf, offset, TextOf(v));
    } else if t.SubtypedObject? {
      var typeName, subtype := TypeNamePart(TextOf(v)), SubtypePart(TextOf(v));
      At2(buf, offset, CStr(typeName), CStr(subtype));
      AtCStr(buf, offset, typeName);
      AtCStr(buf, offset + |typeName| + 1, subtype);
    } else if t.Boolean? {
      AtU8(buf, offset, if v == Bool(true) then 1 else 0);
    } else if t.Integer? {
      AtI32(buf, offset, WholeOf(v));
    } else if t.LongInteger? {
      AtI64(buf, offset, WholeOf(v));
    } else if t.Float? {
      AtBytes(buf, offset, Float32Of(v));
    } else if t.Double? {
      AtBytes(buf, offset, Float64Of(v));
    }
  }

  // ---------------------------------------------------------------- variables

  function Digit(b: bool): (d: int)
    ensures 0 <= d <= 1 && (d == 1 <==> b)
  {
    if b then 1 else 0
  }

  function Flag(b: bool, mask: int): int { mask * Digit(b) }

  predicate Bit(flags: int, mask: int)
    requires mask > 0
  {
    flags / mask % 2 == 1
  }

  predicate Set(b: Option<bool>) { b == Some(true) }

  function VariableFlags(v: Variable): int {
    Flag(Set(v.isChildKey), 1) + Flag(Set(v.isConst), 2) + Flag(Set(v.isContainer), 4) + Flag(v.name.Some?, 8)
    + Flag(v.refCount.Some?, 16) + Flag(HasValue(WireType(v.typ)), 32) + Flag(Set(v.isVirtual), 128)
  }

  function NameBytes(v: Variable): Bytes { if v.name.Some? then CStr(v.name.value) else [] }

  function RefCountBytes(v: Variable): Bytes { if v.refCount.Some? then U32Bytes(v.refCount.value) else [] }

  function KeyTypeCode(v: Variable): nat { if v.keyType.Some? then TableCode(v.keyType.value) else 0 }

  function ContainerBytes(v: Variable): Bytes {
    if Set(v.isContainer) then U8Bytes(KeyTypeCode(v)) + U32Bytes(v.childCount.GetOr(0)) else []
  }

  function ValueFieldBytes(v: Variable): Bytes {
    if HasValue(WireType(v.typ)) then ValueBytes(WireType(v.typ), v.value) else []
  }

  function VariableHeader(v: Variable): Bytes {
    U8Bytes(VariableFlags(v)) + U8Bytes(TableCode(WireType(v.typ)))
  }

  function VariableBytes(v: Variable): Bytes {
    VariableHeader(v) + NameBytes(v) + RefCountBytes(v) + ContainerBytes(v) + ValueFieldBytes(v)
  }

  predicate VariableFits(v: Variable) {
    && IsU32(v.refCount.GetOr(0))
    && (Set(v.isContainer) ==> IsU32(v.childCount.GetOr(0)))
    && ValueFits(WireType(v.typ), v.value)
  }

  function When(b: bool): Option<bool> { if b then Some(true) else None }

  function DecodeName(flags: int, buf: Bytes, offset: nat): Parsed<Option<Text>> {
    if !Bit(flags, 8) then Ok(None, offset)
    else
      var (name, o) :- ReadCStr(buf, offset);
      Ok(Some(name), o)
  }

  function DecodeRefCount(flags: int, buf: Bytes, offset: nat): Parsed<Option<int>> {
    if !Bit(flags, 16) then Ok(None, offset)
    else
      var (n, o) :- ReadU32(buf, offset);
      Ok(Some(n), o)
  }

  function DecodeContainer(flags: int, buf: Bytes, offset: nat): Parsed<Option<(VarType, int)>> {
    if !Bit(flags, 4) then Ok(None, offset)
    else
      var (code, o1) :- ReadU8(buf, offset);
      var (n, o2) :- ReadU32(buf, o1);
      Ok(Some((TypeOf(code), n)), o2)
  }

  function DecodeValueField(flags: int, code: int, buf: Bytes, offset: nat): Parsed<VarValue> {
    if !Bit(flags, 32) then Ok(Null, offset) else DecodeValue(TypeOf(code), buf, offset)
  }

  function DecodeVariable(buf: Bytes, offset: nat, i: nat): Parsed<Variable> {
    var (flags, o1) :- ReadU8(buf, offset);
    var (code, o2) :- ReadU8(buf, o1);
    var (name, o3) :- DecodeName(flags, buf, o2);
    var (refCount, o4) :- DecodeRefCount(flags, buf, o3);
    var (container, o5) :- DecodeContainer(flags, buf, o4);
    var (value, o6) :- DecodeValueField(flags, code, buf, o5);
    Ok(Variable(name, TypeOf(code), value, When(Bit(flags, 1)), When(Bit(flags, 2)), When(Bit(flags, 4)),
                When(Bit(flags, 128)),
                if container.Some? then Some(container.value.0) else None,
                if container.Some? then Some(container.value.1) else None, refCount), o6)
  }

  /** False flags become absent; a container's key type and child count are always filled in. */
  function NormVariable(v: Variable, i: nat): Variable {
    Variable(v.name, WireType(v.typ), NormValue(WireType(v.typ), v.value),
             When(Set(v.isChildKey)), When(Set(v.isConst)), When(Set(v.isContainer)), When(Set(v.isVirtual)),
             if Set(v.isContainer) then Some(TypeOf(KeyTypeCode(v))) else None,
             if Set(v.isContainer) then Some(v.childCount.GetOr(0)) else None, v.refCount)
  }

  lemma FlagBits(b1: bool, b2: bool, b4: bool, b8: bool, b16: bool, b32: bool, b128: bool)
    ensures var flags := Flag(b1, 1) + Flag(b2, 2) + Flag(b4, 4) + Flag(b8, 8) + Flag(b16, 16) + Flag(b32, 32)
                         + Flag(b128, 128);
            && 0 <= flags < 256
            && Bit(flags, 1) == b1 && Bit(flags, 2) == b2 && Bit(flags, 4) == b4 && Bit(flags, 8) == b8
            && Bit(flags, 16) == b16 && Bit(flags, 32) == b32 && Bit(flags, 128) == b128
  {
    hide Bit, Digit;
    SumBits(Digit(b1), Digit(b2), Digit(b4), Digit(b8), Digit(b16), Digit(b32), Digit(b128));
  }

  lemma SumBits(d1: int, d2: int, d4: int, d8: int, d16: int, d32: int, d128: int)
    requires 0 <= d1 <= 1 && 0 <= d2 <= 1 && 0 <= d4 <= 1 && 0 <= d8 <= 1
    requires 0 <= d16 <= 1 && 0 <= d32 <= 1 && 0 <= d128 <= 1
    ensures var n := d1 + 2 * d2 + 4 * d4 + 8 * d8 + 16 * d16 + 32 * d32 + 128 * d128;
            && (Bit(n, 1) <==> d1 == 1) && (Bit(n, 2) <==> d2 == 1) && (Bit(n, 4) <==> d4 == 1)
            && (Bit(n, 8) <==> d8 == 1) && (Bit(n, 16) <==> d16 == 1) && (Bit(n, 32) <==> d32 == 1)
            && (Bit(n, 128) <==> d128 == 1)
  {
    hide Bit;
    var n := d1 + 2 * d2 + 4 * d4 + 8 * d8 + 16 * d16 + 32 * d32 + 128 * d128;
    BitOf(n, 1, 0, d1, d2 + 2 * d4 + 4 * d8 + 8 * d16 + 16 * d32 + 64 * d128);
    BitOf(n, 2, d1, d2, d4 + 2 * d8 + 4 * d16 + 8 * d32 + 32 * d128);
    BitOf(n, 4, d1 + 2 * d2, d4, d8 + 2 * d16 + 4 * d32 + 16 * d128);
    BitOf(n, 8, d1 + 2 * d2 + 4 * d4, d8, d16 + 2 * d32 + 8 * d128);
    BitOf(n, 16, d1 + 2 * d2 + 4 * d4 + 8 * d8, d16, d32 + 4 * d128);
    BitOf(n, 32, d1 + 2 * d2 + 4 * d4 + 8 * d8 + 16 * d16, d32, 2 * d128);
    BitOf(n, 128, d1 + 2 * d2 + 4 * d4 + 8 * d8 + 16 * d16 + 32 * d32, d128, 0);
  }

  /** The digit between what stands below a mask and what stands above it. */
  lemma BitOf(n: int, mask: int, below: int, d: int, above: int)
    requires 0 <= below < mask && 0 <= d <= 1 && n == below + mask * (d + 2 * above)
    ensures Bit(n, mask) <==> d == 1
  {
    QuotientIs(n, mask, d + 2 * above, below);
  }

  lemma QuotientIs(n: int, mask: int, q: int, below: int)
    requires 0 <= below < mask && n == below + mask * q
    ensures n / mask == q
  {
    QuotientUnique(mask, q, below, n / mask, n % mask);
  }

  lemma QuotientUnique(mask: int, q: int, below: int, r: int, rest: int)
    requires 0 <= below < mask && 0 <= rest < mask && below + mask * q == rest + mask * r
    ensures q == r
  {
    assert mask * (q - r) == rest - below && mask * (r - q) == below - rest;
    if q > r {
      TimesAtLeast(mask, q - r);
    } else if r > q {
      TimesAtLeast(mask, r - q);
    }
  }

  lemma TimesAtLeast(a: int, b: int)
    requires a > 0 && b > 0
    ensures a * b >= a
  {
  }

  lemma VariableFlagBits(v: Variable)
    ensures var flags := VariableFlags(v);
            && 0 <= flags < 256
            && Bit(flags, 1) == Set(v.isChildKey) && Bit(flags, 2) == Set(v.isConst)
            && Bit(flags, 4) == Set(v.isContainer) && Bit(flags, 8) == v.name.Some?
            && Bit(flags, 16) == v.refCount.Some? && Bit(flags, 32) == HasValue(WireType(v.typ))
            && Bit(flags, 128) == Set(v.isVirtual)
  {
    hide Bit, HasValue, WireType;
    FlagBits(Set(v.isChildKey), Set(v.isConst), Set(v.isContainer), v.name.Some?, v.refCount.Some?,
             HasValue(WireType(v.typ)), Set(v.isVirtual));
  }

  lemma ContainerRoundTrip(v: Variable, flags: int, buf: Bytes, o: nat)
    requires VariableFits(v) && Set(v.isContainer) && Bit(flags, 4) && At(buf, o, ContainerBytes(v))
    ensures DecodeContainer(flags, buf, o)
         == Ok(Some((TypeOf(KeyTypeCode(v)), v.childCount.GetOr(0))), o + |ContainerBytes(v)|)
  {
    hide At, U32Bytes, ReadU32, ReadU8, Bit, TypeOf, TableCode, ValueFits;
    At2(buf, o, U8Bytes(KeyTypeCode(v)), U32Bytes(v.childCount.GetOr(0)));
    AtU8(buf, o, KeyTypeCode(v));
    AtU32(buf, o + 1, v.childCount.GetOr(0));
  }

  lemma ContainerFieldRoundTrip(v: Variable, flags: int, buf: Bytes, o: nat)
    requires VariableFits(v) && Bit(flags, 4) == Set(v.isContainer) && At(buf, o, ContainerBytes(v))
    ensures DecodeContainer(flags, buf, o)
         == Ok(if Set(v.isContainer) then Some((TypeOf(KeyTypeCode(v)), v.childCount.GetOr(0))) else None,
               o + |ContainerBytes(v)|)
  {
    hide VariableFits, TypeOf, KeyTypeCode, Bit, At;
    if Set(v.isContainer) { ContainerRoundTrip(v, flags, buf, o); }
  }

  lemma NoValueIsNull(t: VarType, v: VarValue)
    ensures !HasValue(t) ==> NormValue(t, v) == Null
  {
  }

  /** The four optional fields after the header, each present exactly when its flag is set. */
  lemma VariableFieldsRoundTrip(v: Variable, flags: int, buf: Bytes, o: nat)
    requires VariableFits(v) && flags == VariableFlags(v)
    requires At(buf, o, NameBytes(v)) && At(buf, o + |NameBytes(v)|, RefCountBytes(v))
    requires At(buf, o + |NameBytes(v)| + |RefCountBytes(v)|, ContainerBytes(v))
    requires At(buf, o + |NameBytes(v)| + |RefCountBytes(v)| + |ContainerBytes(v)|, ValueFieldBytes(v))
    ensures var o3 := o + |NameBytes(v)|;
            var o4 := o3 + |RefCountBytes(v)|;
            var o5 := o4 + |ContainerBytes(v)|;
            && DecodeName(flags, buf, o) == Ok(v.name, o3)
            && DecodeRefCount(flags, buf, o3) == Ok(v.refCount, o4)
            && DecodeContainer(flags, buf, o4)
               == Ok(if Set(v.isContainer) then Some((TypeOf(KeyTypeCode(v)), v.childCount.GetOr(0))) else None, o5)
            && DecodeValueField(flags, TableCode(WireType(v.typ)), buf, o5)
               == Ok(NormValue(WireType(v.typ), v.value), o5 + |ValueFieldBytes(v)|)
  {
    hide At, U32Bytes, ReadU32, ReadCStr, ReadU8, Bit, VariableFlags, DecodeValue, ValueBytes, ValueFits, WireType,
      TableCode, TypeOf, KeyTypeCode, HasValue, NormValue, DecodeContainer, ContainerBytes;
    WireTypeCode(v.typ);
    NoValueIsNull(WireType(v.typ), v.value);
    var o3 := o + |NameBytes(v)|;
    var o4 := o3 + |RefCountBytes(v)|;
    var o5 := o4 + |ContainerBytes(v)|;
    VariableFlagBits(v);
    if v.name.Some? { AtCStr(buf, o, v.name.value); }
    if v.refCount.Some? { AtU32(buf, o3, v.refCount.value); }
    ContainerFieldRoundTrip(v, flags, buf, o4);
    if HasValue(WireType(v.typ)) { ValueRoundTrip(WireType(v.typ), v.value, buf, o5); }
  }

  lemma VariableReadsBack(buf: Bytes, v: Variable)
    requires VariableFits(v)
    ensures ReadsBack(VariableBytes, DecodeVariable, NormVariable, buf, v)
  {
    forall o: nat, i: nat | At(buf, o, VariableBytes(v))
      ensures DecodeVariable(buf, o, i) == Ok(NormVariable(v, i), o + |VariableBytes(v)|)
    {
      VariableRoundTrip(buf, o, v, i);
    }
  }

  lemma VariableRoundTrip(buf: Bytes, o: nat, v: Variable, i: nat)
    requires VariableFits(v) && At(buf, o, VariableBytes(v))
    ensures DecodeVariable(buf, o, i) == Ok(NormVariable(v, i), o + |VariableBytes(v)|)
  {
    hide At, U8Bytes, ReadU8, Bit, Set, VariableFlags, VariableFits, DecodeName, DecodeRefCount, DecodeContainer,
      DecodeValueField, NameBytes, RefCountBytes, ContainerBytes, ValueFieldBytes, NormValue, KeyTypeCode, TypeOf,
      TableCode, WireType;
    At5(buf, o, VariableHeader(v), NameBytes(v), RefCountBytes(v), ContainerBytes(v), ValueFieldBytes(v));
    At2(buf, o, U8Bytes(VariableFlags(v)), U8Bytes(TableCode(WireType(v.typ))));
    VariableFlagBits(v);
    WireTypeCode(v.typ);
    AtU8(buf, o, VariableFlags(v));
    AtU8(buf, o + 1, TableCode(WireType(v.typ)));
    VariableFieldsRoundTrip(v, VariableFlags(v), buf, o + 2);
  }

  // ---------------------------------------------------------------- the other records

  function BreakpointEntryBytes(e: BreakpointEntry): Bytes {
    if e.breakpointId > 0 then
      U32Bytes(e.breakpointId) + U32Bytes(e.errorCode) + U32Bytes(e.ignoreCount.GetOr(0))
    else U32Bytes(0) + U32Bytes(e.errorCode)
  }

  predicate BreakpointEntryFits(e: BreakpointEntry) {
    e.breakpointId < U32_LIMIT && IsU32(e.errorCode) && (e.breakpointId > 0 ==> IsU32(e.ignoreCount.GetOr(0)))
  }

  function DecodeBreakpointEntry(buf: Bytes, offset: nat, i: nat): Parsed<BreakpointEntry> {
    var (id, o1) :- ReadU32(buf, offset);
    var (errorCode, o2) :- ReadU32(buf, o1);
    if id > 0 then
      var (ignoreCount, o3) :- ReadU32(buf, o2);
      Ok(BreakpointEntry(id, errorCode, Some(ignoreCount)), o3)
    else Ok(BreakpointEntry(0, errorCode, None), o2)
  }

  function NormBreakpointEntry(e: BreakpointEntry, i: nat): BreakpointEntry {
    if e.breakpointId > 0 then e.(ignoreCount := Some(e.ignoreCount.GetOr(0)))
    else BreakpointEntry(0, e.errorCode, None)
  }

  lemma BreakpointEntryReadsBack(buf: Bytes, e: BreakpointEntry)
    requires BreakpointEntryFits(e)
    ensures ReadsBack(BreakpointEntryBytes, DecodeBreakpointEntry, NormBreakpointEntry, buf, e)
  {
    hide At, U32Bytes, ReadU32;
    forall o: nat, i: nat | At(buf, o, BreakpointEntryBytes(e))
      ensures DecodeBreakpointEntry(buf, o, i) == Ok(NormBreakpointEntry(e, i), o + |BreakpointEntryBytes(e)|)
    {
      if e.breakpointId > 0 {
        At3(buf, o, U32Bytes(e.breakpointId), U32Bytes(e.errorCode), U32Bytes(e.ignoreCount.GetOr(0)));
        AtU32(buf, o, e.breakpointId);
        AtU32(buf, o + 8, e.ignoreCount.GetOr(0));
      } else {
        At2(buf, o, U32Bytes(0), U32Bytes(e.errorCode));
        AtU32(buf, o, 0);
      }
      AtU32(buf, o + 4, e.errorCode);
    }
  }

  function ThreadHeader(e: ThreadEntry): Bytes {
    U8Bytes(Flag(e.isPrimary, 1) + Flag(e.isDetached, 2)) + U32Bytes(StopReasonCode(e.stopReason))
    + CStr(e.stopReasonDetail) + U32Bytes(e.line)
  }

  function ThreadBytes(e: ThreadEntry): Bytes {
    ThreadHeader(e) + CStr(e.functionName) + CStr(e.file) + CStr(e.codeSnippet)
  }

  predicate ThreadFits(e: ThreadEntry) { IsU32(e.line) }

  function DecodeThread(buf: Bytes, offset: nat, i: nat): Parsed<ThreadEntry> {
    var (flags, o1) :- ReadU8(buf, offset);
    var (code, o2) :- ReadU32(buf, o1);
    var (detail, o3) :- ReadCStr(buf, o2);
    var (line, o4) :- ReadU32(buf, o3);
    var (functionName, o5) :- ReadCStr(buf, o4);
    var (file, o6) :- ReadCStr(buf, o5);
    var (snippet, o7) :- ReadCStr(buf, o6);
    Ok(ThreadEntry(i, Bit(flags, 1), Bit(flags, 2), StopReasonOf(code), detail, line, functionName, file, snippet), o7)
  }

  /** A thread's id is its position in the list. */
  function NormThread(e: ThreadEntry, i: nat): ThreadEntry { e.(id := i) }

  lemma ThreadFlagBits(p: bool, d: bool)
    ensures var flags := Flag(p, 1) + Flag(d, 2); 0 <= flags < 256 && Bit(flags, 1) == p && Bit(flags, 2) == d
  {
  }

  lemma ThreadReadsBack(buf: Bytes, e: ThreadEntry)
    requires ThreadFits(e)
    ensures ReadsBack(ThreadBytes, DecodeThread, NormThread, buf, e)
  {
    hide At, U32Bytes, U8Bytes, ReadU32, ReadCStr, CStr, ReadU8, Bit, Flag, StopReasonCode, StopReasonOf;
    ThreadFlagBits(e.isPrimary, e.isDetached);
    StopReasonCodes(e.stopReason);
    forall o: nat, i: nat | At(buf, o, ThreadBytes(e))
      ensures DecodeThread(buf, o, i) == Ok(NormThread(e, i), o + |ThreadBytes(e)|)
    {
      At4(buf, o, ThreadHeader(e), CStr(e.functionName), CStr(e.file), CStr(e.codeSnippet));
      var flags, code := Flag(e.isPrimary, 1) + Flag(e.isDetached, 2), StopReasonCode(e.stopReason);
      At4(buf, o, U8Bytes(flags), U32Bytes(code), CStr(e.stopReasonDetail), U32Bytes(e.line));
      AtU8(buf, o, flags);
      AtU32(buf, o + 1, code);
      AtCStr(buf, o + 5, e.stopReasonDetail);
      var o4 := o + |ThreadHeader(e)|;
      AtU32(buf, o4 - 4, e.line);
      AtCStr(buf, o4, e.functionName);
      AtCStr(buf, o4 + |e.functionName| + 1, e.file);
      AtCStr(buf, o4 + |e.functionName| + |e.file| + 2, e.codeSnippet);
    }
  }

  /** The file comes before the function name, and an absent name is an empty string. */
  function StackFrameBytes(f: StackFrame): Bytes {
    U32Bytes(f.line) + CStr(f.file) + CStr(f.functionName.GetOr([]))
  }

  predicate StackFrameFits(f: StackFrame) { IsU32(f.line) }

  function NonEmpty(s: Text): Option<Text> { if s == [] then None else Some(s) }

  function DecodeStackFrame(buf: Bytes, offset: nat, i: nat): Parsed<StackFrame> {
    var (line, o1) :- ReadU32(buf, offset);
    var (file, o2) :- ReadCStr(buf, o1);
    var (functionName, o3) :- ReadCStr(buf, o2);
    Ok(StackFrame(i, file, line, NonEmpty(functionName)), o3)
  }

  function NormStackFrame(f: StackFrame, i: nat): StackFrame {
    f.(idx := i, functionName := NonEmpty(f.functionName.GetOr([])))
  }

  lemma StackFrameReadsBack(buf: Bytes, f: StackFrame)
    requires StackFrameFits(f)
    ensures ReadsBack(StackFrameBytes, DecodeStackFrame, NormStackFrame, buf, f)
  {
    hide At, U32Bytes, ReadU32, ReadCStr;
    forall o: nat, i: nat | At(buf, o, StackFrameBytes(f))
      ensures DecodeStackFrame(buf, o, i) == Ok(NormStackFrame(f, i), o + |StackFrameBytes(f)|)
    {
      var functionName: Text := f.functionName.GetOr([]);
      At3(buf, o, U32Bytes(f.line), CStr(f.file), CStr(functionName));
      AtU32(buf, o, f.line);
      AtCStr(buf, o + 4, f.file);
      AtCStr(buf, o + 4 + |f.file| + 1, functionName);
    }
  }

  function StatusBytes(s: FilterStatus): Bytes { U32Bytes(s.filterTypeId) + U32Bytes(s.errorCode) }

  predicate StatusFits(s: FilterStatus) { IsU32(s.filterTypeId) && IsU32(s.errorCode) }

  function DecodeStatus(buf: Bytes, offset: nat, i: nat): Parsed<FilterStatus> {
    var (filterTypeId, o1) :- ReadU32(buf, offset);
    var (errorCode, o2) :- ReadU32(buf, o1);
    Ok(FilterStatus(filterTypeId, errorCode), o2)
  }

  lemma StatusReadsBack(buf: Bytes, s: FilterStatus)
    requires StatusFits(s)
    ensures ReadsBack(StatusBytes, DecodeStatus, Same, buf, s)
  {
    hide At, U32Bytes, ReadU32;
    forall o: nat, i: nat | At(buf, o, StatusBytes(s))
      ensures DecodeStatus(buf, o, i) == Ok(s, o + |StatusBytes(s)|)
    {
      At2(buf, o, U32Bytes(s.filterTypeId), U32Bytes(s.errorCode));
      AtU32(buf, o, s.filterTypeId);
      AtU32(buf, o + 4, s.errorCode);
    }
  }

  // ---------------------------------------------------------------- three string lists in a row

  function ErrorListsBytes(e: ErrorLists): Bytes {
    Counted(TextBytes, e.compileErrors) + Counted(TextBytes, e.runtimeErrors) + Counted(TextBytes, e.otherErrors)
  }

  predicate ErrorListsFit(e: ErrorLists) {
    IsU32(|e.compileErrors|) && IsU32(|e.runtimeErrors|) && IsU32(|e.otherErrors|)
  }

  function DecodeErrorLists(buf: Bytes, offset: nat): Parsed<ErrorLists> {
    var (compileErrors, o1) :- DecodeCounted(DecodeText, buf, offset);
    var (runtimeErrors, o2) :- DecodeCounted(DecodeText, buf, o1);
    var (otherErrors, o3) :- DecodeCounted(DecodeText, buf, o2);
    Ok(ErrorLists(compileErrors, runtimeErrors, otherErrors), o3)
  }

  lemma TextsRoundTrip(buf: Bytes, offset: nat, ts: seq<Text>)
    requires IsU32(|ts|) && At(buf, offset, Counted(TextBytes, ts))
    ensures DecodeCounted(DecodeText, buf, offset) == Ok(ts, offset + |Counted(TextBytes, ts)|)
  {
    forall t: Text | t in ts ensures ReadsBack<Text, Text>(TextBytes, DecodeText, Same, buf, t) {
      TextReadsBack(buf, t);
    }
    CountedRoundTrip<Text, Text>(TextBytes, DecodeText, Same, buf, offset, ts);
    SameList(ts);
  }

  lemma ErrorListsRoundTrip(buf: Bytes, offset: nat, e: ErrorLists)
    requires ErrorListsFit(e) && At(buf, offset, ErrorListsBytes(e))
    ensures DecodeErrorLists(buf, offset) == Ok(e, offset + |ErrorListsBytes(e)|)
  {
    hide At, Counted, DecodeCounted;
    var c, r, o := Counted(TextBytes, e.compileErrors), Counted(TextBytes, e.runtimeErrors),
      Counted(TextBytes, e.otherErrors);
    At3(buf, offset, c, r, o);
    TextsRoundTrip(buf, offset, e.compileErrors);
    TextsRoundTrip(buf, offset + |c|, e.runtimeErrors);
    TextsRoundTrip(buf, offset + |c| + |r|, e.otherErrors);
  }

  // ---------------------------------------------------------------- responses

  predicate HasWireForm(res: Response) { !res.Connected? && !res.Sentinel? }

  function BodyBytes(res: Response): Bytes {
    match res
    case ThreadList(ts) => Counted(ThreadBytes, ts)
    case StackFrames(fs) => Counted(StackFrameBytes, fs)
    case VariableList(vs) => Counted(VariableBytes, vs)
    case Evaluated(success, reason, errors) => EvalHeader(success, reason) + ErrorListsBytes(errors)
    case BreakpointsAdded(es) => Counted(BreakpointEntryBytes, es)
    case ConditionalBreakpointsAdded(es) => Counted(BreakpointEntryBytes, es)
    case BreakpointsRemoved(es) => Counted(BreakpointEntryBytes, es)
    case BreakpointsList(es) => Counted(BreakpointEntryBytes, es)
    case ExceptionBreakpointsSet(ss) => Counted(StatusBytes, ss)
    case _ => []
  }

  function RuntimeStopCode(reason: Option<StopReason>): int {
    if reason.Some? then StopReasonCode(reason.value) else 0
  }

  function EvalHeader(success: bool, reason: Option<StopReason>): Bytes {
    U8Bytes(if success then 1 else 0) + U8Bytes(RuntimeStopCode(reason))
  }

  predicate EntriesFit(es: seq<BreakpointEntry>) {
    IsU32(|es|) && forall e :: e in es ==> BreakpointEntryFits(e)
  }

  predicate ResponseFits(res: Response) {
    match res
    case ThreadList(ts) => IsU32(|ts|) && forall t :: t in ts ==> ThreadFits(t)
    case StackFrames(fs) => IsU32(|fs|) && forall f :: f in fs ==> StackFrameFits(f)
    case VariableList(vs) => IsU32(|vs|) && forall v :: v in vs ==> VariableFits(v)
    case Evaluated(_, _, errors) => ErrorListsFit(errors)
    case BreakpointsAdded(es) => EntriesFit(es)
    case ConditionalBreakpointsAdded(es) => EntriesFit(es)
    case BreakpointsRemoved(es) => EntriesFit(es)
    case BreakpointsList(es) => EntriesFit(es)
    case ExceptionBreakpointsSet(ss) => IsU32(|ss|) && forall s :: s in ss ==> StatusFits(s)
    case _ => true
  }

  function EncodeResponse(res: Response, errorCode: int): Result<Bytes> {
    if !HasWireForm(res) then Failure(NoWireForm)
    else if !IsU32(errorCode) || !ResponseFits(res) then Failure(OutOfRange)
    else Success(U32Bytes(errorCode) + BodyBytes(res))
  }

  function DecodeEval(buf: Bytes, offset: nat): Parsed<Response> {
    var (success, o1) :- ReadU8(buf, offset);
    var (code, o2) :- ReadU8(buf, o1);
    var (errors, o3) :- DecodeErrorLists(buf, o2);
    Ok(Evaluated(success != 0, if code != 0 then Some(StopReasonOf(code)) else None, errors), o3)
  }

  function DecodeBody(kind: ResponseKind, buf: Bytes, offset: nat): Parsed<Response> {
    match kind
    case PausedKind => Ok(Paused, offset)
    case ContinuedKind => Ok(Continued, offset)
    case SteppedKind => Ok(Stepped, offset)
    case ExitedKind => Ok(Exited, offset)
    case ThreadsKind =>
      var (ts, o) :- DecodeCounted(DecodeThread, buf, offset);
      Ok(ThreadList(ts), o)
    case StackTraceKind =>
      var (fs, o) :- DecodeCounted(DecodeStackFrame, buf, offset);
      Ok(StackFrames(fs), o)
    case VariablesKind =>
      var (vs, o) :- DecodeCounted(DecodeVariable, buf, offset);
      Ok(VariableList(vs), o)
    case EvalKind => DecodeEval(buf, offset)
    case BreakpointsAddedKind =>
      var (es, o) :- DecodeCounted(DecodeBreakpointEntry, buf, offset);
      Ok(BreakpointsAdded(es), o)
    case ConditionalBreakpointsAddedKind =>
      var (es, o) :- DecodeCounted(DecodeBreakpointEntry, buf, offset);
      Ok(ConditionalBreakpointsAdded(es), o)
    case BreakpointsRemovedKind =>
      var (es, o) :- DecodeCounted(DecodeBreakpointEntry, buf, offset);
      Ok(BreakpointsRemoved(es), o)
    case BreakpointsListKind =>
      var (es, o) :- DecodeCounted(DecodeBreakpointEntry, buf, offset);
      Ok(BreakpointsList(es), o)
    case ExceptionBreakpointsSetKind =>
      var (ss, o) :- DecodeCounted(DecodeStatus, buf, offset);
      Ok(ExceptionBreakpointsSet(ss), o)
    case ConnectedKind => Err(NoWireForm)
    case ErrorKind => Err(NoWireForm)
  }

  /** The response and the error code; the body is decoded whatever the error code is. */
  function DecodeResponse(kind: ResponseKind, payload: Bytes): Result<(Response, nat)> {
    if |payload| < 4 then Failure(TooShort)
    else
      match ReadU32(payload, 0)
      case Err(e) => Failure(e)
      case Ok(errorCode, offset) =>
        match DecodeBody(kind, payload, offset)
        case Err(e) => Failure(e)
        case Ok(res, _) => Success((res, errorCode))
  }

  function NormEntries(es: seq<BreakpointEntry>): seq<BreakpointEntry> { MapIndexed(NormBreakpointEntry, es, 0) }

  /** What a response means on the wire. */
  function NormResponse(res: Response): Response {
    match res
    case ThreadList(ts) => ThreadList(MapIndexed(NormThread, ts, 0))
    case StackFrames(fs) => StackFrames(MapIndexed(NormStackFrame, fs, 0))
    case VariableList(vs) => VariableList(MapIndexed(NormVariable, vs, 0))
    case Evaluated(success, reason, errors) =>
      Evaluated(success, if reason == Some(Undefined) then None else reason, errors)
    case BreakpointsAdded(es) => BreakpointsAdded(NormEntries(es))
    case ConditionalBreakpointsAdded(es) => ConditionalBreakpointsAdded(NormEntries(es))
    case BreakpointsRemoved(es) => BreakpointsRemoved(NormEntries(es))
    case BreakpointsList(es) => BreakpointsList(NormEntries(es))
    case _ => res
  }

  /** What the normal form of a value is: the value itself if it belongs to the type, else the least one of the type. */
  lemma NormValueIs(t: VarType, v: VarValue)
    ensures NormValue(t, v)
         == match t
            case String => if v.Str? then v else Str([])
            case Object => if v.Str? then v else Str([])
            case Function => if v.Str? then v else Str([])
            case Interface => if v.Str? then v else Str([])
            case Subroutine => if v.Str? then v else Str([])
            case SubtypedObject =>
              if !v.Str? then Str([])
              else if FindSeparator(v.s, 0) == Some(|v.s| - 2) then Str(v.s[..|v.s| - 2])
              else v
            case Boolean => if v.Bool? then v else Bool(false)
            case Integer => if v.Whole? then v else Whole(0)
            case LongInteger => if v.Whole? then v else Whole(0)
            case Float => if v.Bits32? then v else Bits32([0, 0, 0, 0])
            case Double => if v.Bits64? then v else Bits64([0, 0, 0, 0, 0, 0, 0, 0])
            case _ => Null
  {
    hide FindSeparator, TypeNamePart, SubtypePart, JoinSubtype;
    if t.SubtypedObject? {
      SubtypedNameKept(TextOf(v));
      if !v.Str? { assert FindSeparator([], 0) == None by { NoSeparator(); } }
    }
  }

  lemma NoSeparator()
    ensures FindSeparator([], 0) == None
  {
  }

  /** What the normal form of a variable changes: flags, unlisted types, and what only containers carry. */
  lemma NormVariableIs(v: Variable, i: nat)
    ensures var n := NormVariable(v, i);
            && n.name == v.name && n.refCount == v.refCount
            && n.typ == (if v.typ.OtherType? then Unknown else v.typ) && n.value == NormValue(n.typ, v.value)
            && n.isChildKey == (if v.isChildKey == Some(true) then Some(true) else None)
            && n.isConst == (if v.isConst == Some(true) then Some(true) else None)
            && n.isContainer == (if v.isContainer == Some(true) then Some(true) else None)
            && n.isVirtual == (if v.isVirtual == Some(true) then Some(true) else None)
            && n.keyType == (if v.isContainer != Some(true) then None
                             else if v.keyType.None? || v.keyType.value.OtherType? then Some(Unknown)
                             else v.keyType)
            && n.childCount == (if v.isContainer != Some(true) then None
                                else if v.childCount.None? then Some(0)
                                else v.childCount)
  {
    hide NormValue;
    if v.keyType.Some? { ListedTypeBack(v.keyType.value); }
  }

  lemma ListedTypeBack(t: VarType)
    ensures TypeOf(TableCode(t)) == if t.OtherType? then Unknown else t
  {
  }

  /**
   What the normal form of a response changes: ids and indices become positions, an empty function name and an undefined
   stop reason become absent, a count that is absent becomes zero, and an entry without id has neither.
   */
  lemma NormResponseIs(res: Response)
    ensures match (res, NormResponse(res))
            case (ThreadList(ts), ThreadList(ns)) =>
              |ns| == |ts| && forall i :: 0 <= i < |ts| ==> ns[i] == ts[i].(id := i)
            case (StackFrames(fs), StackFrames(ns)) =>
              |ns| == |fs| && forall i :: 0 <= i < |fs| ==>
                ns[i] == StackFrame(i, fs[i].file, fs[i].line,
                                    if fs[i].functionName == Some([]) then None else fs[i].functionName)
            case (VariableList(vs), VariableList(ns)) =>
              |ns| == |vs| && forall i :: 0 <= i < |vs| ==> ns[i] == NormVariable(vs[i], i)
            case (Evaluated(success, reason, errors), n) =>
              n == Evaluated(success, if reason == Some(Undefined) then None else reason, errors)
            case (BreakpointsAdded(es), BreakpointsAdded(ns)) => EntriesNormal(es, ns)
            case (ConditionalBreakpointsAdded(es), ConditionalBreakpointsAdded(ns)) => EntriesNormal(es, ns)
            case (BreakpointsRemoved(es), BreakpointsRemoved(ns)) => EntriesNormal(es, ns)
            case (BreakpointsList(es), BreakpointsList(ns)) => EntriesNormal(es, ns)
            case (_, n) => n == res
  {
    hide NormVariable;
  }

  ghost predicate EntriesNormal(es: seq<BreakpointEntry>, ns: seq<BreakpointEntry>) {
    && |ns| == |es|
    && forall i :: 0 <= i < |es| ==>
         ns[i] == if es[i].breakpointId <= 0 then BreakpointEntry(0, es[i].errorCode, None)
                  else es[i].(ignoreCount := if es[i].ignoreCount.None? then Some(0) else es[i].ignoreCount)
  }

  // ---------------------------------------------------------------- round trip of responses

  lemma ThreadsRoundTrip(buf: Bytes, o: nat, ts: seq<ThreadEntry>)
    requires ResponseFits(ThreadList(ts)) && At(buf, o, Counted(ThreadBytes, ts))
    ensures DecodeCounted(DecodeThread, buf, o) == Ok(MapIndexed(NormThread, ts, 0), o + |Counted(ThreadBytes, ts)|)
  {
    hide At, Counted, DecodeCounted;
    forall t | t in ts ensures ReadsBack(ThreadBytes, DecodeThread, NormThread, buf, t) { ThreadReadsBack(buf, t); }
    CountedRoundTrip(ThreadBytes, DecodeThread, NormThread, buf, o, ts);
  }

  lemma StackFramesRoundTrip(buf: Bytes, o: nat, fs: seq<StackFrame>)
    requires ResponseFits(StackFrames(fs)) && At(buf, o, Counted(StackFrameBytes, fs))
    ensures DecodeCounted(DecodeStackFrame, buf, o)
         == Ok(MapIndexed(NormStackFrame, fs, 0), o + |Counted(StackFrameBytes, fs)|)
  {
    hide At, Counted, DecodeCounted;
    forall f | f in fs ensures ReadsBack(StackFrameBytes, DecodeStackFrame, NormStackFrame, buf, f) {
      StackFrameReadsBack(buf, f);
    }
    CountedRoundTrip(StackFrameBytes, DecodeStackFrame, NormStackFrame, buf, o, fs);
  }

  lemma VariablesRoundTrip(buf: Bytes, o: nat, vs: seq<Variable>)
    requires ResponseFits(VariableList(vs)) && At(buf, o, Counted(VariableBytes, vs))
    ensures DecodeCounted(DecodeVariable, buf, o)
         == Ok(MapIndexed(NormVariable, vs, 0), o + |Counted(VariableBytes, vs)|)
  {
    hide At, Counted, DecodeCounted;
    forall v | v in vs ensures ReadsBack(VariableBytes, DecodeVariable, NormVariable, buf, v) {
      VariableReadsBack(buf, v);
    }
    CountedRoundTrip(VariableBytes, DecodeVariable, NormVariable, buf, o, vs);
  }

  lemma EntriesRoundTrip(buf: Bytes, o: nat, es: seq<BreakpointEntry>)
    requires EntriesFit(es) && At(buf, o, Counted(BreakpointEntryBytes, es))
    ensures DecodeCounted(DecodeBreakpointEntry, buf, o)
         == Ok(NormEntries(es), o + |Counted(BreakpointEntryBytes, es)|)
  {
    hide At, Counted, DecodeCounted;
    forall e | e in es ensures ReadsBack(BreakpointEntryBytes, DecodeBreakpointEntry, NormBreakpointEntry, buf, e) {
      BreakpointEntryReadsBack(buf, e);
    }
    CountedRoundTrip(BreakpointEntryBytes, DecodeBreakpointEntry, NormBreakpointEntry, buf, o, es);
  }

  lemma StatusesRoundTrip(buf: Bytes, o: nat, ss: seq<FilterStatus>)
    requires ResponseFits(ExceptionBreakpointsSet(ss)) && At(buf, o, Counted(StatusBytes, ss))
    ensures DecodeCounted(DecodeStatus, buf, o) == Ok(ss, o + |Counted(StatusBytes, ss)|)
  {
    hide At, Counted, DecodeCounted;
    forall s | s in ss ensures ReadsBack(StatusBytes, DecodeStatus, Same, buf, s) { StatusReadsBack(buf, s); }
    CountedRoundTrip(StatusBytes, DecodeStatus, Same, buf, o, ss);
    SameList(ss);
  }

  lemma EvalRoundTrip(buf: Bytes, o: nat, res: Response)
    requires res.Evaluated? && ResponseFits(res) && At(buf, o, BodyBytes(res))
    ensures DecodeEval(buf, o) == Ok(NormResponse(res), o + |BodyBytes(res)|)
  {
    hide At, ReadU8, DecodeErrorLists, ErrorListsBytes;
    var code := RuntimeStopCode(res.runtimeStopReason);
    At2(buf, o, EvalHeader(res.success, res.runtimeStopReason), ErrorListsBytes(res.errors));
    At2(buf, o, U8Bytes(if res.success then 1 else 0), U8Bytes(code));
    AtU8(buf, o, if res.success then 1 else 0);
    AtU8(buf, o + 1, code);
    ErrorListsRoundTrip(buf, o + 2, res.errors);
  }

  /** Every response body, decoded for its own kind, is consumed exactly and yields the normal form. */
  lemma BodyRoundTrip(buf: Bytes, o: nat, res: Response)
    requires HasWireForm(res) && ResponseFits(res) && At(buf, o, BodyBytes(res))
    ensures DecodeBody(res.Kind(), buf, o) == Ok(NormResponse(res), o + |BodyBytes(res)|)
  {
    hide At, Counted, DecodeCounted, DecodeEval;
    match res
    case ThreadList(ts) => ThreadsRoundTrip(buf, o, ts);
    case StackFrames(fs) => StackFramesRoundTrip(buf, o, fs);
    case VariableList(vs) => VariablesRoundTrip(buf, o, vs);
    case Evaluated(_, _, _) => EvalRoundTrip(buf, o, res);
    case BreakpointsAdded(es) => EntriesRoundTrip(buf, o, es);
    case ConditionalBreakpointsAdded(es) => EntriesRoundTrip(buf, o, es);
    case BreakpointsRemoved(es) => EntriesRoundTrip(buf, o, es);
    case BreakpointsList(es) => EntriesRoundTrip(buf, o, es);
    case ExceptionBreakpointsSet(ss) => StatusesRoundTrip(buf, o, ss);
    case _ =>
  }

  /** Whatever response the encoder accepts, the decoder for its kind returns in normal form, error code included. */
  lemma ResponseRoundTrip(res: Response, errorCode: int)
    requires EncodeResponse(res, errorCode).Success?
    ensures DecodeResponse(res.Kind(), EncodeResponse(res, errorCode).value)
         == Success((NormResponse(res), errorCode))
  {
    hide At, ReadU32, DecodeBody, BodyBytes, U32Bytes, NormResponse;
    var payload := EncodeResponse(res, errorCode).value;
    AtSelf(payload);
    At2(payload, 0, U32Bytes(errorCode), BodyBytes(res));
    AtU32(payload, 0, errorCode);
    BodyRoundTrip(payload, 4, res);
  }

  // ---------------------------------------------------------------- nothing but the normal form is lost

  lemma NormValueBytes(t: VarType, v: VarValue)
    requires ValueFits(t, v)
    ensures ValueBytes(t, NormValue(t, v)) == ValueBytes(t, v)
  {
    if t.SubtypedObject? { SubtypedNameParts(TextOf(v)); }
  }

  lemma {:induction false} NoSeparatorBefore(s: Bytes, from: nat, i: nat)
    requires FindSeparator(s, from) == Some(i)
    ensures FindSeparator(s[..i], from) == None
    decreases |s| - from
  {
    if from + 2 <= |s| && !(s[from] == SEMICOLON && s[from + 1] == SPACE) {
      NoSeparatorBefore(s, from + 1, i);
    }
  }

  /** Joining the two parts and splitting again yields the same two parts. */
  lemma SubtypedNameParts(s: Text)
    ensures var kept := JoinSubtype(TypeNamePart(s), SubtypePart(s));
            TypeNamePart(kept) == TypeNamePart(s) && SubtypePart(kept) == SubtypePart(s)
  {
    SubtypedNameKept(s);
    if FindSeparator(s, 0) == Some(|s| - 2) { NoSeparatorBefore(s, 0, |s| - 2); }
  }

  /** The key type of a container, if it is one, is in the code table. */
  predicate KeyTypeListed(v: Variable) { Set(v.isContainer) ==> KeyTypeCode(v) != 0 }

  predicate KeyTypesListed(res: Response) {
    res.VariableList? ==> forall v :: v in res.variables ==> KeyTypeListed(v)
  }

  /**
   A variable and its normal form have the same bytes unless a container's key type is missing or unlisted: that is
   written as code 0, read as Unknown, and Unknown is written as code 17.
   */
  lemma NormVariableBytes(v: Variable, i: nat)
    requires VariableFits(v)
    ensures VariableBytes(NormVariable(v, i)) == VariableBytes(v) <==> KeyTypeListed(v)
    ensures |VariableBytes(NormVariable(v, i))| == |VariableBytes(v)|
  {
    hide ValueBytes, ValueFits, NormValue, HasValue, U32Bytes, TableCode, TypeOf, VariableFlags, WireType, CStr,
      KeyTypeCode;
    NormValueBytes(WireType(v.typ), v.value);
    var n := NormVariable(v, i);
    NormFlags(v, i);
    WireTypeCode(v.typ);
    assert VariableHeader(n) == VariableHeader(v);
    assert NameBytes(n) + RefCountBytes(n) == NameBytes(v) + RefCountBytes(v);
    if Set(v.isContainer) {
      KeyCodeKept(v, i);
      var at := |VariableHeader(v) + NameBytes(v) + RefCountBytes(v)|;
      assert VariableBytes(n)[at] == KeyTypeCode(n) && VariableBytes(v)[at] == KeyTypeCode(v);
    }
  }

  /** A container without a key type is written with code 0 and, once read, with code 17. */
  lemma MissingKeyTypeChangesBytes(i: nat)
    ensures var v := Variable(None, AssociativeArray, Null, None, None, Some(true), None, None, None, None);
            VariableFits(v) && VariableBytes(NormVariable(v, i)) != VariableBytes(v)
  {
    NormVariableBytes(Variable(None, AssociativeArray, Null, None, None, Some(true), None, None, None, None), i);
  }

  lemma NormFlags(v: Variable, i: nat)
    ensures VariableFlags(NormVariable(v, i)) == VariableFlags(v)
    ensures WireType(NormVariable(v, i).typ) == WireType(v.typ)
  {
  }

  lemma KeyCodeKept(v: Variable, i: nat)
    requires Set(v.isContainer)
    ensures KeyTypeCode(NormVariable(v, i)) == KeyTypeCode(v) <==> KeyTypeCode(v) != 0
    ensures KeyTypeCode(v) < 256 && KeyTypeCode(NormVariable(v, i)) < 256
  {
  }

  /** Lists of records of pairwise equal length encode alike only if every record does. */
  lemma {:induction false} EncodeAllInjective<T>(encode: T -> Bytes, xs: seq<T>, ys: seq<T>)
    requires |xs| == |ys| && forall i :: 0 <= i < |xs| ==> |encode(xs[i])| == |encode(ys[i])|
    ensures EncodeAll(encode, xs) == EncodeAll(encode, ys)
       <==> forall i :: 0 <= i < |xs| ==> encode(xs[i]) == encode(ys[i])
  {
    if xs != [] {
      var x, y, a, b := encode(xs[0]), encode(ys[0]), EncodeAll(encode, xs[1..]), EncodeAll(encode, ys[1..]);
      assert (x + a)[..|x|] == x && (x + a)[|x|..] == a && (y + b)[..|y|] == y && (y + b)[|y|..] == b;
      EncodeAllInjective(encode, xs[1..], ys[1..]);
      assert forall i :: 1 <= i < |xs| ==> xs[i] == xs[1..][i - 1] && ys[i] == ys[1..][i - 1];
    }
  }

  lemma NormVariablesBytes(vs: seq<Variable>)
    requires ResponseFits(VariableList(vs))
    ensures Counted(VariableBytes, MapIndexed(NormVariable, vs, 0)) == Counted(VariableBytes, vs)
       <==> forall v :: v in vs ==> KeyTypeListed(v)
  {
    hide VariableBytes, NormVariable, VariableFits, KeyTypeListed, U32Bytes;
    var ns := MapIndexed(NormVariable, vs, 0);
    forall i | 0 <= i < |vs|
      ensures |VariableBytes(ns[i])| == |VariableBytes(vs[i])|
      ensures VariableBytes(ns[i]) == VariableBytes(vs[i]) <==> KeyTypeListed(vs[i])
    {
      NormVariableBytes(vs[i], i);
    }
    EncodeAllInjective(VariableBytes, ns, vs);
    var count, a, b := U32Bytes(|vs|), EncodeAll(VariableBytes, ns), EncodeAll(VariableBytes, vs);
    assert (count + a)[4..] == a && (count + b)[4..] == b;
  }

  lemma NormKeepsBodyBytes(res: Response)
    requires HasWireForm(res) && ResponseFits(res)
    ensures BodyBytes(NormResponse(res)) == BodyBytes(res) <==> KeyTypesListed(res)
  {
    hide Counted, MapIndexed, NormEntries, EvalHeader;
    match res
    case ThreadList(ts) => NormThreadsBytes(ts);
    case StackFrames(fs) => NormStackFramesBytes(fs);
    case Evaluated(success, reason, _) => NormEvalHeader(success, reason);
    case VariableList(vs) => NormVariablesBytes(vs);
    case BreakpointsAdded(es) => NormEntriesBytes(es);
    case ConditionalBreakpointsAdded(es) => NormEntriesBytes(es);
    case BreakpointsRemoved(es) => NormEntriesBytes(es);
    case BreakpointsList(es) => NormEntriesBytes(es);
    case _ =>
  }

  lemma NormThreadsBytes(ts: seq<ThreadEntry>)
    ensures Counted(ThreadBytes, MapIndexed(NormThread, ts, 0)) == Counted(ThreadBytes, ts)
  {
    EncodeAllCongruence(ThreadBytes, ThreadBytes, ts, MapIndexed(NormThread, ts, 0));
  }

  lemma NormStackFramesBytes(fs: seq<StackFrame>)
    ensures Counted(StackFrameBytes, MapIndexed(NormStackFrame, fs, 0)) == Counted(StackFrameBytes, fs)
  {
    EncodeAllCongruence(StackFrameBytes, StackFrameBytes, fs, MapIndexed(NormStackFrame, fs, 0));
  }

  lemma NormEvalHeader(success: bool, reason: Option<StopReason>)
    ensures EvalHeader(success, if reason == Some(Undefined) then None else reason) == EvalHeader(success, reason)
  {
  }

  lemma NormEntriesBytes(es: seq<BreakpointEntry>)
    ensures Counted(BreakpointEntryBytes, NormEntries(es)) == Counted(BreakpointEntryBytes, es)
  {
    EncodeAllCongruence(BreakpointEntryBytes, BreakpointEntryBytes, es, NormEntries(es));
  }

  /**
   Equal bytes mean equal error code and equal normal form; the converse holds for responses whose container
   key types are listed, so for these nothing but what the normal form drops is lost.
   */
  lemma ResponseBytesDetermineNorm(a: Response, b: Response, ea: int, eb: int)
    requires EncodeResponse(a, ea).Success? && EncodeResponse(b, eb).Success? && a.Kind() == b.Kind()
    ensures EncodeResponse(a, ea) == EncodeResponse(b, eb) ==> ea == eb && NormResponse(a) == NormResponse(b)
    ensures KeyTypesListed(a) && KeyTypesListed(b) && ea == eb && NormResponse(a) == NormResponse(b) ==>
              EncodeResponse(a, ea) == EncodeResponse(b, eb)
  {
    hide BodyBytes, DecodeBody, NormResponse, ResponseFits, U32Bytes, KeyTypesListed;
    ResponseRoundTrip(a, ea);
    ResponseRoundTrip(b, eb);
    NormKeepsBodyBytes(a);
    NormKeepsBodyBytes(b);
  }
}

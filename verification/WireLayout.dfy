/**
 The wire format as its reference document tabulates it, field by field and code by code, and the codec measured
 against it: what the encoders write, which numbers they accept, and what the decoders make of any values in the
 fields, also of values that the encoders never write.
 */
module WireLayout {
  import opened Wrappers
  import opened Bytes
  import opened Messages
  import Requests = WireRequests
  import Responses = WireResponses
  import Events = WireEvents

  // ---------------------------------------------------------------- code tables

  const STEP_TYPES: map<Granularity, int> := map[Line := 1, Out := 2, Over := 3]

  const STOP_REASONS: map<StopReason, int> := map[
    Undefined := 0, NotStopped := 1, NormalExit := 2, StopStatement := 3, Break := 4, RuntimeError := 5,
    CaughtRuntimeError := 6]

  const VARIABLE_TYPES: map<VarType, int> := map[
    AssociativeArray := 1, Array := 2, Boolean := 3, Double := 4, Float := 5, Function := 6, Integer := 7,
    Interface := 8, Invalid := 9, List := 10, LongInteger := 11, Object := 12, String := 13, Subroutine := 14,
    SubtypedObject := 15, Uninitialized := 16, Unknown := 17]

  /** Step types are written with their codes; a code that is not in the table is read as a line step. */
  lemma StepTypesAre(g: Granularity, code: int)
    ensures g in STEP_TYPES && Requests.StepTypeCode(g) == STEP_TYPES[g]
    ensures g != Line ==> (Requests.GranularityOf(code) == g <==> code == STEP_TYPES[g])
  {
  }

  /** Stop reasons are written with their codes; a code that is not in the table is read as undefined. */
  lemma StopReasonsAre(r: StopReason, code: int)
    ensures r in STOP_REASONS && Responses.StopReasonCode(r) == STOP_REASONS[r]
    ensures r != Undefined ==> (Responses.StopReasonOf(code) == r <==> code == STOP_REASONS[r])
  {
  }

  /** Variable types are written and read with their codes; any other code is read as an unknown type. */
  lemma VariableTypesAre(t: VarType, code: int)
    ensures t in VARIABLE_TYPES <==> !t.OtherType?
    ensures t in VARIABLE_TYPES ==> Responses.TableCode(t) == VARIABLE_TYPES[t]
    ensures t in VARIABLE_TYPES && t != Unknown ==> (Responses.TypeOf(code) == t <==> code == VARIABLE_TYPES[t])
    ensures t.OtherType? ==> Responses.TypeOf(code) != t
  {
    if t in VARIABLE_TYPES {
      assert Responses.TableCode(t) == VARIABLE_TYPES[t];
      if 1 <= code <= 17 { TypeCodeBack(code); }
    }
  }

  lemma TypeCodeBack(code: int)
    requires 1 <= code <= 17
    ensures Responses.TableCode(Responses.TypeOf(code)) == code
  {
  }

  // ---------------------------------------------------------------- requests

  function Unless0(n: Option<int>): int { if n.Some? then n.value else 0 }

  function BreakpointLayout(bp: Breakpoint): Bytes {
    CStr(bp.file) + U32Bytes(bp.line) + U32Bytes(Unless0(bp.ignoreCount))
  }

  function CondBreakpointLayout(bp: CondBreakpoint): Bytes {
    CStr(bp.file) + U32Bytes(bp.line) + U32Bytes(Unless0(bp.ignoreCount)) + CStr(bp.conditionalExpression)
  }

  function FilterLayout(f: ExceptionFilter): Bytes { U32Bytes(f.filterTypeId) + CStr(f.conditionExpression) }

  /** Bit 0 asks for child keys, bit 2 for virtual keys. */
  function VariablesFlags(childKeys: Option<bool>, virtualKeys: Option<bool>): byte {
    if childKeys == Some(true) then (if virtualKeys == Some(true) then 5 else 1)
    else if virtualKeys == Some(true) then 4
    else 0
  }

  function RequestLayout(req: Request): Bytes
    requires !req.Connect?
  {
    match req
    case Pause => U32Bytes(1)
    case Continue(t) => U32Bytes(2) + U32Bytes(t)
    case Threads => U32Bytes(3)
    case StackTrace(t) => U32Bytes(4) + U32Bytes(t)
    case Variables(t, f, path, childKeys, virtualKeys) =>
      U32Bytes(5) + [VariablesFlags(childKeys, virtualKeys)] + U32Bytes(t) + U32Bytes(f)
      + Counted(TextBytes, if path.Some? then path.value else [])
    case Step(t, g) => U32Bytes(6) + U32Bytes(t) + [if g == Line then 1 else if g == Out then 2 else 3]
    case AddBreakpoints(bps) => U32Bytes(7) + Counted(BreakpointLayout, bps)
    case ListBreakpoints => U32Bytes(8)
    case RemoveBreakpoints(ids) => U32Bytes(9) + Counted(U32Bytes, ids)
    case Eval(t, f, e) => U32Bytes(10) + U32Bytes(t) + U32Bytes(f) + CStr(e)
    case AddConditionalBreakpoints(bps) => U32Bytes(11) + U32Bytes(0) + Counted(CondBreakpointLayout, bps)
    case SetExceptionBreakpoints(fs) => U32Bytes(12) + Counted(FilterLayout, fs)
    case ExitChannel => U32Bytes(122)
  }

  /** The encoder writes exactly what the table says. */
  lemma RequestOnWire(req: Request)
    requires Requests.EncodeRequest(req).Success?
    ensures Requests.EncodeRequest(req) == Success(RequestLayout(req))
  {
    hide U32Bytes, Counted, CStr, Requests.RequestFits;
    match req
    case AddBreakpoints(bps) => BreakpointsAre(bps);
    case AddConditionalBreakpoints(bps) => CondBreakpointsAre(bps);
    case SetExceptionBreakpoints(fs) => FiltersAre(fs);
    case Step(_, g) => assert U8Bytes(Requests.StepTypeCode(g)) == [Requests.StepTypeCode(g)];
    case Variables(_, _, _, c, v) => assert U8Bytes(Requests.VariablesFlags(req)) == [VariablesFlags(c, v)];
    case _ =>
  }

  lemma BreakpointsAre(bps: seq<Breakpoint>)
    ensures Counted(BreakpointLayout, bps) == Counted(Requests.BreakpointBytes, bps)
  {
    EncodeAllCongruence(Requests.BreakpointBytes, BreakpointLayout, bps, bps);
  }

  lemma FiltersAre(fs: seq<ExceptionFilter>)
    ensures Counted(FilterLayout, fs) == Counted(Requests.FilterBytes, fs)
  {
    EncodeAllCongruence(Requests.FilterBytes, FilterLayout, fs, fs);
  }

  /** The numbers of a request that stand in 32-bit fields, counts of lists included. */
  ghost function RequestNumbers(req: Request): set<int> {
    match req
    case Continue(t) => {t}
    case Step(t, _) => {t}
    case StackTrace(t) => {t}
    case Variables(t, f, path, _, _) => {t, f} + if path.Some? then {|path.value|} else {}
    case Eval(t, f, _) => {t, f}
    case AddBreakpoints(bps) =>
      {|bps|} + (set bp | bp in bps :: bp.line) + (set bp | bp in bps :: Unless0(bp.ignoreCount))
    case AddConditionalBreakpoints(bps) =>
      {|bps|} + (set bp | bp in bps :: bp.line) + (set bp | bp in bps :: Unless0(bp.ignoreCount))
    case RemoveBreakpoints(ids) => {|ids|} + set id | id in ids
    case SetExceptionBreakpoints(fs) => {|fs|} + set f | f in fs :: f.filterTypeId
    case _ => {}
  }

  ghost predicate AllFit(ns: set<int>) { forall n :: n in ns ==> 0 <= n <= 4294967295 }

  /** A request is encoded exactly if it is no connect request and each of its numbers fits an unsigned 32-bit field. */
  lemma RequestEncodesIff(req: Request)
    ensures Requests.EncodeRequest(req).Success? <==> !req.Connect? && AllFit(RequestNumbers(req))
  {
    hide Requests.RequestBytes;
    var ns := RequestNumbers(req);
    match req
    case AddBreakpoints(bps) =>
      assert forall bp :: bp in bps ==> bp.line in ns && Unless0(bp.ignoreCount) in ns;
    case AddConditionalBreakpoints(bps) =>
      assert forall bp :: bp in bps ==> bp.line in ns && Unless0(bp.ignoreCount) in ns;
    case RemoveBreakpoints(ids) => assert forall id :: id in ids ==> id in ns;
    case SetExceptionBreakpoints(fs) => assert forall f :: f in fs ==> f.filterTypeId in ns;
    case Continue(t) => assert t in ns;
    case Step(t, _) => assert t in ns;
    case StackTrace(t) => assert t in ns;
    case Variables(t, f, path, _, _) => assert t in ns && f in ns && (path.Some? ==> |path.value| in ns);
    case Eval(t, f, _) => assert t in ns && f in ns;
    case _ =>
  }

  /** A command whose code is not in the table is refused with its code. */
  lemma OtherCommandsRefused(command: int, rest: Bytes)
    requires IsU32(command) && command !in {1, 2, 3, 4, 5, 6, 7, 8, 9, 10, 11, 12, 122}
    ensures Requests.DecodeRequest(U32Bytes(command) + rest) == Failure(UnknownCode(command))
  {
    hide U32Bytes, ReadU32;
    AtPrefix(U32Bytes(command), rest);
    AtU32(U32Bytes(command) + rest, 0, command);
  }

  /** Any step code is read: 2 as out, 3 as over, and every other as line. */
  lemma StepReads(t: int, code: byte, rest: Bytes)
    requires IsU32(t)
    ensures Requests.DecodeRequest(U32Bytes(6) + U32Bytes(t) + [code] + rest)
         == Success(Step(t, if code == 2 then Out else if code == 3 then Over else Line))
  {
    hide U32Bytes, ReadU32;
    var payload := U32Bytes(6) + U32Bytes(t) + [code] + rest;
    AtPrefix(U32Bytes(6) + U32Bytes(t) + [code], rest);
    At3(payload, 0, U32Bytes(6), U32Bytes(t), [code]);
    AtU32(payload, 0, 6);
    AtU32(payload, 4, t);
    assert payload[8] == code;
  }

  /** Of the flags of a variables request only bit 0 and bit 2 matter. */
  lemma VariablesFlagsRead(flags: byte, t: int, f: int, path: seq<Text>, rest: Bytes)
    requires IsU32(t) && IsU32(f) && IsU32(|path|)
    ensures Requests.DecodeRequest(U32Bytes(5) + [flags] + U32Bytes(t) + U32Bytes(f) + Counted(TextBytes, path) + rest)
         == Success(Variables(t, f, if path == [] then None else Some(path),
                              if flags % 2 == 1 then Some(true) else None,
                              if flags % 8 >= 4 then Some(true) else None))
  {
    hide U32Bytes, ReadU32, Counted, DecodeCounted, At;
    var args := U32Bytes(5) + [flags] + U32Bytes(t) + U32Bytes(f) + Counted(TextBytes, path);
    var payload := args + rest;
    AtPrefix(args, rest);
    At5(payload, 0, U32Bytes(5), [flags], U32Bytes(t), U32Bytes(f), Counted(TextBytes, path));
    AtU32(payload, 0, 5);
    assert payload[4] == flags by { AtByte(payload, 4, flags); }
    AtU32(payload, 5, t);
    AtU32(payload, 9, f);
    Responses.TextsRoundTrip(payload, 13, path);
  }

  lemma AtByte(buf: Bytes, offset: nat, b: byte)
    requires At(buf, offset, [b])
    ensures offset < |buf| && buf[offset] == b
  {
    assert buf[offset] == buf[offset..offset + 1][0];
  }

  /** The reserved word of conditional breakpoints is skipped, whatever it holds. */
  lemma ReservedWordSkipped(flags: int, bps: seq<CondBreakpoint>, rest: Bytes)
    requires Requests.EncodeRequest(AddConditionalBreakpoints(bps)).Success?
    ensures Requests.DecodeRequest(U32Bytes(11) + U32Bytes(flags) + Counted(CondBreakpointLayout, bps) + rest)
         == Success(Requests.NormRequest(AddConditionalBreakpoints(bps)))
  {
    hide U32Bytes, ReadU32, Counted, DecodeCounted, At;
    var list := Counted(Requests.CondBreakpointBytes, bps);
    assert Counted(CondBreakpointLayout, bps) == list by { CondBreakpointsAre(bps); }
    var payload := U32Bytes(11) + U32Bytes(flags) + list + rest;
    AtPrefix(U32Bytes(11) + U32Bytes(flags) + list, rest);
    At3(payload, 0, U32Bytes(11), U32Bytes(flags), list);
    AtU32(payload, 0, 11);
    forall bp | bp in bps
      ensures ReadsBack(Requests.CondBreakpointBytes, Requests.DecodeCondBreakpoint, Requests.NormCondBreakpoint,
                        payload, bp)
    {
      Requests.CondBreakpointReadsBack(payload, bp);
    }
    CountedRoundTrip(Requests.CondBreakpointBytes, Requests.DecodeCondBreakpoint, Requests.NormCondBreakpoint, payload,
                     8, bps);
  }

  lemma CondBreakpointsAre(bps: seq<CondBreakpoint>)
    ensures Counted(CondBreakpointLayout, bps) == Counted(Requests.CondBreakpointBytes, bps)
  {
    EncodeAllCongruence(Requests.CondBreakpointBytes, CondBreakpointLayout, bps, bps);
  }

  // ---------------------------------------------------------------- events

  function ErrorsLayout(e: ErrorLists): Bytes {
    Counted(TextBytes, e.compileErrors) + Counted(TextBytes, e.runtimeErrors) + Counted(TextBytes, e.otherErrors)
  }

  /** An event with any error code, any reserved word and any stop code in the places for them. */
  function EventLayout(error: int, reserved: int, stopCode: byte, e: Event): Bytes {
    U32Bytes(error) +
    match e
    case IOPortOpened(port) => U32Bytes(1) + U32Bytes(port)
    case Stopped(t, _, detail) => U32Bytes(2) + U32Bytes(t) + [stopCode] + CStr(detail)
    case ThreadAttached(t, _, detail) => U32Bytes(3) + U32Bytes(t) + [stopCode] + CStr(detail)
    case BreakpointError(id, errors) => U32Bytes(4) + U32Bytes(reserved) + U32Bytes(id) + ErrorsLayout(errors)
    case CompileError(message, file, line, lib) =>
      U32Bytes(5) + U32Bytes(reserved) + CStr(message) + CStr(file) + U32Bytes(line) + CStr(lib)
    case BreakpointVerified(ids) => U32Bytes(6) + U32Bytes(reserved) + Counted(U32Bytes, ids)
    case ProtocolError => U32Bytes(7)
    case ExceptionBreakpointError(id, errors, line, file) =>
      U32Bytes(8) + U32Bytes(reserved) + U32Bytes(id) + ErrorsLayout(errors) + U32Bytes(line) + CStr(file)
  }

  function StopOf(e: Event): StopReason {
    match e
    case Stopped(_, r, _) => r
    case ThreadAttached(_, r, _) => r
    case _ => Undefined
  }

  /** The encoder writes error code 0, reserved words of 0 and the code of the stop reason. */
  lemma EventOnWire(e: Event)
    requires Events.EncodeEvent(e).Success?
    ensures StopOf(e) in STOP_REASONS && 0 <= STOP_REASONS[StopOf(e)] < 256
    ensures Events.EncodeEvent(e) == Success(EventLayout(0, 0, STOP_REASONS[StopOf(e)], e))
  {
    hide EventLayout, Events.RawBody, Events.UpdateType, Events.EventFits;
    EventLayoutParts(0, 0, STOP_REASONS[StopOf(e)], e);
  }

  lemma EventLayoutParts(error: int, reserved: int, stopCode: byte, e: Event)
    ensures EventLayout(error, reserved, stopCode, e)
         == U32Bytes(error) + U32Bytes(Events.UpdateType(e)) + Events.RawBody(reserved, stopCode, e)
  {
    hide U32Bytes, Counted, CStr;
    var head, body := U32Bytes(error), Events.RawBody(reserved, stopCode, e);
    match e
    case IOPortOpened(_) => assert head + (U32Bytes(1) + body) == head + U32Bytes(1) + body;
    case Stopped(t, _, d) => Regroup4(head, U32Bytes(2), U32Bytes(t), [stopCode], CStr(d));
    case ThreadAttached(t, _, d) => Regroup4(head, U32Bytes(3), U32Bytes(t), [stopCode], CStr(d));
    case BreakpointError(id, errors) =>
      Regroup4(head, U32Bytes(4), U32Bytes(reserved), U32Bytes(id), ErrorsLayout(errors));
    case CompileError(m, f, line, lib) =>
      assert head + (U32Bytes(5) + U32Bytes(reserved) + CStr(m) + CStr(f) + U32Bytes(line) + CStr(lib))
          == head + U32Bytes(5) + body;
    case BreakpointVerified(ids) =>
      assert head + (U32Bytes(6) + U32Bytes(reserved) + Counted(U32Bytes, ids)) == head + U32Bytes(6) + body;
    case ProtocolError => assert head + U32Bytes(7) + [] == head + U32Bytes(7);
    case ExceptionBreakpointError(id, errors, line, file) =>
      assert head
          + (U32Bytes(8) + U32Bytes(reserved) + U32Bytes(id) + ErrorsLayout(errors) + U32Bytes(line) + CStr(file))
          == head + U32Bytes(8) + body;
  }

  lemma Regroup4(a: Bytes, b: Bytes, c: Bytes, d: Bytes, e: Bytes)
    ensures a + (b + c + d + e) == a + b + (c + d + e)
  {
  }

  /**
   Whatever the error code, the reserved word and the stop code are, and whatever follows, the decoder reads the event,
   with the stop reason that the code stands for.
   */
  lemma EventReads(error: int, reserved: int, stopCode: byte, e: Event, rest: Bytes)
    requires Events.EncodeEvent(e).Success?
    ensures Events.DecodeEvent(EventLayout(error, reserved, stopCode, e) + rest)
         == Success(Events.WithStop(e, stopCode))
  {
    hide EventLayout, Events.RawBody, Events.UpdateType, Events.DecodeEvent, Events.WithStop, Events.EventFits;
    Events.RawEventReads(error, reserved, stopCode, e, rest);
    EventLayoutParts(error, reserved, stopCode, e);
  }

  /** An update type that is not in the table is refused with its code. */
  lemma OtherEventsRefused(error: int, updateType: int, rest: Bytes)
    requires IsU32(updateType) && updateType !in {1, 2, 3, 4, 5, 6, 7, 8}
    ensures Events.DecodeEvent(U32Bytes(error) + U32Bytes(updateType) + rest) == Failure(UnknownCode(updateType))
  {
    hide U32Bytes, ReadU32;
    AtPrefix(U32Bytes(error) + U32Bytes(updateType), rest);
    At2(U32Bytes(error) + U32Bytes(updateType) + rest, 0, U32Bytes(error), U32Bytes(updateType));
    AtU32(U32Bytes(error) + U32Bytes(updateType) + rest, 4, updateType);
  }

  /** The numbers of an event that stand in unsigned and in signed fields. */
  ghost function EventUnsigned(e: Event): set<int> {
    match e
    case CompileError(_, _, line, _) => {line}
    case BreakpointError(id, errors) => {id} + ErrorCounts(errors)
    case BreakpointVerified(ids) => {|ids|} + set id | id in ids
    case ExceptionBreakpointError(id, errors, _, _) => {id} + ErrorCounts(errors)
    case _ => {}
  }

  ghost function ErrorCounts(errors: ErrorLists): set<int> {
    {|errors.compileErrors|, |errors.runtimeErrors|, |errors.otherErrors|}
  }

  ghost function EventSigned(e: Event): set<int> {
    match e
    case Stopped(t, _, _) => {t}
    case ThreadAttached(t, _, _) => {t}
    case IOPortOpened(port) => {port}
    case ExceptionBreakpointError(_, _, line, _) => {line}
    case _ => {}
  }

  /** An event is encoded exactly if its numbers fit their fields. */
  lemma EventEncodesIff(e: Event)
    ensures Events.EncodeEvent(e).Success?
       <==> AllFit(EventUnsigned(e)) && forall n :: n in EventSigned(e) ==> -2147483648 <= n <= 2147483647
  {
    hide Events.EventHeader, Events.EventBody;
    var us, ss := EventUnsigned(e), EventSigned(e);
    match e
    case Stopped(t, _, _) => assert t in ss;
    case ThreadAttached(t, _, _) => assert t in ss;
    case IOPortOpened(port) => assert port in ss;
    case CompileError(_, _, line, _) => assert line in us;
    case BreakpointError(id, errors) => assert id in us && ErrorCounts(errors) <= us;
    case BreakpointVerified(ids) => assert |ids| in us && forall id :: id in ids ==> id in us;
    case ProtocolError =>
    case ExceptionBreakpointError(id, errors, line, _) => assert id in us && ErrorCounts(errors) <= us && line in ss;
  }

  // ---------------------------------------------------------------- responses

  function ThreadLayout(e: ThreadEntry): Bytes {
    [(if e.isPrimary then 1 else 0) + (if e.isDetached then 2 else 0)]
    + U32Bytes(if e.stopReason in STOP_REASONS then STOP_REASONS[e.stopReason] else 0)
    + CStr(e.stopReasonDetail) + U32Bytes(e.line) + CStr(e.functionName) + CStr(e.file) + CStr(e.codeSnippet)
  }

  function StackFrameLayout(f: StackFrame): Bytes {
    U32Bytes(f.line) + CStr(f.file) + CStr(if f.functionName.Some? then f.functionName.value else [])
  }

  function EntryLayout(e: BreakpointEntry): Bytes {
    if e.breakpointId > 0 then U32Bytes(e.breakpointId) + U32Bytes(e.errorCode) + U32Bytes(Unless0(e.ignoreCount))
    else U32Bytes(0) + U32Bytes(e.errorCode)
  }

  function StatusLayout(s: FilterStatus): Bytes { U32Bytes(s.filterTypeId) + U32Bytes(s.errorCode) }

  /** The code of a type; a type that is not in the table is written as Unknown. */
  function TypeCode(t: VarType): (code: byte)
    ensures 1 <= code <= 17
  {
    if t in VARIABLE_TYPES && 1 <= VARIABLE_TYPES[t] <= 17 then VARIABLE_TYPES[t] else 17
  }

  /** The flags of a variable, bit by bit; bit 6 is not used. */
  function VariableFlags(v: Variable): int {
    (if v.isChildKey == Some(true) then 1 else 0) + (if v.isConst == Some(true) then 2 else 0)
    + (if v.isContainer == Some(true) then 4 else 0) + (if v.name.Some? then 8 else 0)
    + (if v.refCount.Some? then 16 else 0) + (if TypeCode(v.typ) in {1, 2, 9, 10, 16, 17} then 0 else 32)
    + (if v.isVirtual == Some(true) then 128 else 0)
  }

  /** The value of a variable, by the code of its type. */
  function ValueLayout(code: int, v: VarValue): Bytes {
    if code in {6, 8, 12, 13, 14} then CStr(if v.Str? then v.s else [])
    else if code == 15 then
      var name: Text := if v.Str? then v.s else [];
      CStr(Responses.TypeNamePart(name)) + CStr(Responses.SubtypePart(name))
    else if code == 3 then [if v == Bool(true) then 1 else 0]
    else if code == 7 then U32Bytes(if v.Whole? then v.n else 0)
    else if code == 11 then I64Bytes(if v.Whole? then v.n else 0)
    else if code == 5 then (if v.Bits32? then v.f else [0, 0, 0, 0])
    else if code == 4 then (if v.Bits64? then v.d else [0, 0, 0, 0, 0, 0, 0, 0])
    else []
  }

  function KeyCode(v: Variable): byte {
    if v.keyType.Some? && !v.keyType.value.OtherType? then TypeCode(v.keyType.value) else 0
  }

  function VariableLayout(v: Variable): Bytes {
    U8Bytes(VariableFlags(v)) + [TypeCode(v.typ)]
    + (if v.name.Some? then CStr(v.name.value) else [])
    + (if v.refCount.Some? then U32Bytes(v.refCount.value) else [])
    + (if v.isContainer == Some(true) then [KeyCode(v)] + U32Bytes(Unless0(v.childCount)) else [])
    + ValueLayout(TypeCode(v.typ), v.value)
  }

  function ResponseLayout(res: Response): Bytes {
    match res
    case ThreadList(ts) => Counted(ThreadLayout, ts)
    case StackFrames(fs) => Counted(StackFrameLayout, fs)
    case VariableList(vs) => Counted(VariableLayout, vs)
    case Evaluated(success, reason, errors) =>
      [if success then 1 else 0]
      + [if reason.Some? && reason.value in STOP_REASONS && 0 <= STOP_REASONS[reason.value] < 256
         then STOP_REASONS[reason.value] else 0]
      + ErrorsLayout(errors)
    case BreakpointsAdded(es) => Counted(EntryLayout, es)
    case ConditionalBreakpointsAdded(es) => Counted(EntryLayout, es)
    case BreakpointsRemoved(es) => Counted(EntryLayout, es)
    case BreakpointsList(es) => Counted(EntryLayout, es)
    case ExceptionBreakpointsSet(ss) => Counted(StatusLayout, ss)
    case _ => []
  }

  lemma TypeCodeIs(t: VarType)
    ensures TypeCode(t) == Responses.TableCode(Responses.WireType(t))
  {
  }

  /** Which types have their values written in which way, by their codes. */
  lemma ShapesOfTypes(t: VarType)
    ensures var typ, code := Responses.WireType(t), TypeCode(t);
            && (Responses.IsStringLike(typ) <==> code in {6, 8, 12, 13, 14})
            && (typ.SubtypedObject? <==> code == 15) && (typ.Boolean? <==> code == 3) && (typ.Integer? <==> code == 7)
            && (typ.LongInteger? <==> code == 11) && (typ.Float? <==> code == 5) && (typ.Double? <==> code == 4)
            && (Responses.HasValue(typ) <==> code !in {1, 2, 9, 10, 16, 17})
  {
    hide TypeCode;
    TypeCodeIs(t);
  }

  lemma ValueIs(t: VarType, v: VarValue)
    ensures ValueLayout(TypeCode(t), v)
         == if Responses.HasValue(Responses.WireType(t)) then Responses.ValueBytes(Responses.WireType(t), v) else []
  {
    hide TypeCode, Responses.WireType, Responses.IsStringLike, Responses.HasValue, U32Bytes, I64Bytes,
      Responses.TypeNamePart, Responses.SubtypePart;
    ShapesOfTypes(t);
  }

  /** The parts of a variable record that depend on codes: its header, what a container carries, and its value. */
  lemma VariablePartsAre(v: Variable)
    ensures U8Bytes(VariableFlags(v)) + [TypeCode(v.typ)] == Responses.VariableHeader(v)
    ensures (if v.isContainer == Some(true) then [KeyCode(v)] + U32Bytes(Unless0(v.childCount)) else [])
         == Responses.ContainerBytes(v)
    ensures ValueLayout(TypeCode(v.typ), v.value) == Responses.ValueFieldBytes(v)
  {
    hide U32Bytes, ValueLayout, VariableFlags, Responses.VariableFlags, Responses.ValueBytes, Responses.TableCode,
      Responses.WireType, TypeCode;
    TypeCodeIs(v.typ);
    ValueIs(v.typ, v.value);
    KeyCodeIs(v);
    FlagsAre(v);
  }

  lemma VariableIs(v: Variable)
    ensures VariableLayout(v) == Responses.VariableBytes(v)
  {
    hide U8Bytes, U32Bytes, CStr, ValueLayout, VariableFlags, Responses.VariableHeader, Responses.ContainerBytes,
      Responses.ValueFieldBytes, TypeCode, KeyCode;
    VariablePartsAre(v);
  }

  lemma KeyCodeIs(v: Variable)
    ensures KeyCode(v) == Responses.KeyTypeCode(v)
  {
    hide TypeCode;
    if v.keyType.Some? { TypeCodeIs(v.keyType.value); }
  }

  lemma FlagsAre(v: Variable)
    ensures VariableFlags(v) == Responses.VariableFlags(v)
  {
    hide TypeCode, Responses.WireType, Responses.HasValue;
    ShapesOfTypes(v.typ);
  }

  lemma ThreadIs(e: ThreadEntry)
    ensures ThreadLayout(e) == Responses.ThreadBytes(e)
  {
    hide U32Bytes, CStr;
    StopReasonsAre(e.stopReason, 0);
  }

  lemma ThreadsAre(ts: seq<ThreadEntry>)
    ensures Counted(ThreadLayout, ts) == Counted(Responses.ThreadBytes, ts)
  {
    hide ThreadLayout, Responses.ThreadBytes;
    forall i | 0 <= i < |ts| ensures ThreadLayout(ts[i]) == Responses.ThreadBytes(ts[i]) { ThreadIs(ts[i]); }
    EncodeAllCongruence(ThreadLayout, Responses.ThreadBytes, ts, ts);
  }

  lemma VariablesAre(vs: seq<Variable>)
    ensures Counted(VariableLayout, vs) == Counted(Responses.VariableBytes, vs)
  {
    hide VariableLayout, Responses.VariableBytes;
    forall i | 0 <= i < |vs| ensures VariableLayout(vs[i]) == Responses.VariableBytes(vs[i]) { VariableIs(vs[i]); }
    EncodeAllCongruence(VariableLayout, Responses.VariableBytes, vs, vs);
  }

  lemma StackFramesAre(fs: seq<StackFrame>)
    ensures Counted(StackFrameLayout, fs) == Counted(Responses.StackFrameBytes, fs)
  {
    EncodeAllCongruence(StackFrameLayout, Responses.StackFrameBytes, fs, fs);
  }

  lemma EntriesAre(es: seq<BreakpointEntry>)
    ensures Counted(EntryLayout, es) == Counted(Responses.BreakpointEntryBytes, es)
  {
    EncodeAllCongruence(EntryLayout, Responses.BreakpointEntryBytes, es, es);
  }

  lemma StatusesAre(ss: seq<FilterStatus>)
    ensures Counted(StatusLayout, ss) == Counted(Responses.StatusBytes, ss)
  {
    EncodeAllCongruence(StatusLayout, Responses.StatusBytes, ss, ss);
  }

  /** The error code, and then what the table says. */
  lemma ResponseOnWire(res: Response, errorCode: int)
    requires Responses.EncodeResponse(res, errorCode).Success?
    ensures Responses.EncodeResponse(res, errorCode) == Success(U32Bytes(errorCode) + ResponseLayout(res))
  {
    hide U32Bytes, Counted, Responses.ResponseFits;
    match res
    case ThreadList(ts) => ThreadsAre(ts);
    case StackFrames(fs) => StackFramesAre(fs);
    case VariableList(vs) => VariablesAre(vs);
    case Evaluated(success, reason, errors) => EvalHeaderIs(success, reason);
    case BreakpointsAdded(es) => EntriesAre(es);
    case ConditionalBreakpointsAdded(es) => EntriesAre(es);
    case BreakpointsRemoved(es) => EntriesAre(es);
    case BreakpointsList(es) => EntriesAre(es);
    case ExceptionBreakpointsSet(ss) => StatusesAre(ss);
    case _ =>
  }

  lemma EvalHeaderIs(success: bool, reason: Option<StopReason>)
    ensures Responses.EvalHeader(success, reason)
         == [if success then 1 else 0]
            + [if reason.Some? && reason.value in STOP_REASONS && 0 <= STOP_REASONS[reason.value] < 256
               then STOP_REASONS[reason.value] else 0]
  {
    if reason.Some? { StopReasonsAre(reason.value, 0); }
  }

  /** The numbers of a response that stand in unsigned fields; an entry with no id in use has only its error code. */
  ghost function ResponseNumbers(res: Response): set<int> {
    match res
    case ThreadList(ts) => {|ts|} + set t | t in ts :: t.line
    case StackFrames(fs) => {|fs|} + set f | f in fs :: f.line
    case VariableList(vs) =>
      {|vs|} + (set v | v in vs :: Unless0(v.refCount))
      + (set v | v in vs && v.isContainer == Some(true) :: Unless0(v.childCount))
    case Evaluated(_, _, errors) => ErrorCounts(errors)
    case BreakpointsAdded(es) => EntryNumbers(es)
    case ConditionalBreakpointsAdded(es) => EntryNumbers(es)
    case BreakpointsRemoved(es) => EntryNumbers(es)
    case BreakpointsList(es) => EntryNumbers(es)
    case ExceptionBreakpointsSet(ss) =>
      {|ss|} + (set s | s in ss :: s.filterTypeId) + (set s | s in ss :: s.errorCode)
    case _ => {}
  }

  ghost function EntryNumbers(es: seq<BreakpointEntry>): set<int> {
    {|es|} + (set e | e in es :: e.errorCode) + (set e | e in es && e.breakpointId > 0 :: e.breakpointId)
    + (set e | e in es && e.breakpointId > 0 :: Unless0(e.ignoreCount))
  }

  /** A value has the shape that its type is written with: whole numbers in range, floats of four and eight bytes. */
  ghost predicate ValueWritable(v: Variable) {
    match TypeCode(v.typ)
    case 7 => !v.value.Bits32? && !v.value.Bits64? && (v.value.Whole? ==> -2147483648 <= v.value.n <= 2147483647)
    case 11 =>
      && !v.value.Bits32? && !v.value.Bits64?
      && (v.value.Whole? ==> -9223372036854775808 <= v.value.n <= 9223372036854775807)
    case 5 => !v.value.Whole? && !v.value.Bits64? && (v.value.Bits32? ==> |v.value.f| == 4)
    case 4 => !v.value.Whole? && !v.value.Bits32? && (v.value.Bits64? ==> |v.value.d| == 8)
    case _ => true
  }

  lemma ValueFitsIff(v: Variable)
    ensures Responses.ValueFits(Responses.WireType(v.typ), v.value) <==> ValueWritable(v)
  {
    hide TypeCode, Responses.WireType, Responses.IsStringLike, Responses.HasValue;
    ShapesOfTypes(v.typ);
  }

  lemma EntriesFitIff(es: seq<BreakpointEntry>)
    ensures Responses.EntriesFit(es) <==> AllFit(EntryNumbers(es))
  {
    var ns := EntryNumbers(es);
    assert forall e :: e in es ==>
      e.errorCode in ns && (e.breakpointId > 0 ==> e.breakpointId in ns && Unless0(e.ignoreCount) in ns);
  }

  /** A response is encoded exactly if it has a wire form, its numbers fit and its values can be written. */
  lemma ResponseEncodesIff(res: Response, errorCode: int)
    ensures Responses.EncodeResponse(res, errorCode).Success?
       <==> && !res.Connected? && !res.Sentinel? && 0 <= errorCode <= 4294967295 && AllFit(ResponseNumbers(res))
            && (res.VariableList? ==> forall v :: v in res.variables ==> ValueWritable(v))
  {
    hide Responses.BodyBytes, Responses.ValueFits, ValueWritable, Responses.EntriesFit, EntryNumbers;
    var ns := ResponseNumbers(res);
    match res
    case ThreadList(ts) => assert forall t :: t in ts ==> t.line in ns;
    case StackFrames(fs) => assert forall f :: f in fs ==> f.line in ns;
    case VariableList(vs) =>
      assert forall v :: v in vs ==>
        Unless0(v.refCount) in ns && (v.isContainer == Some(true) ==> Unless0(v.childCount) in ns);
      forall v | v in vs ensures Responses.ValueFits(Responses.WireType(v.typ), v.value) <==> ValueWritable(v) {
        ValueFitsIff(v);
      }
    case Evaluated(_, _, errors) => assert ErrorCounts(errors) <= ns;
    case BreakpointsAdded(es) => EntriesFitIff(es);
    case ConditionalBreakpointsAdded(es) => EntriesFitIff(es);
    case BreakpointsRemoved(es) => EntriesFitIff(es);
    case BreakpointsList(es) => EntriesFitIff(es);
    case ExceptionBreakpointsSet(ss) => assert forall s :: s in ss ==> s.filterTypeId in ns && s.errorCode in ns;
    case _ =>
  }

  // ---------------------------------------------------------------- responses with any bytes in their fields

  /** Any flags byte and any stop code: of the flags only the two lowest bits matter. */
  lemma ThreadReads(buf: Bytes, o: nat, i: nat, flags: byte, code: int, e: ThreadEntry)
    requires IsU32(code) && IsU32(e.line)
    requires At(buf, o, [flags] + U32Bytes(code) + CStr(e.stopReasonDetail) + U32Bytes(e.line)
                        + (CStr(e.functionName) + CStr(e.file) + CStr(e.codeSnippet)))
    ensures Responses.DecodeThread(buf, o, i)
         == Ok(e.(id := i, isPrimary := flags % 2 == 1, isDetached := flags % 4 >= 2,
                  stopReason := Responses.StopReasonOf(code)),
               o + 13 + |e.stopReasonDetail| + |e.functionName| + |e.file| + |e.codeSnippet|)
  {
    hide At, U32Bytes, CStr, ReadU32, ReadCStr, ReadU8, Responses.StopReasonOf;
    var texts := CStr(e.functionName) + CStr(e.file) + CStr(e.codeSnippet);
    At5(buf, o, [flags], U32Bytes(code), CStr(e.stopReasonDetail), U32Bytes(e.line), texts);
    assert U8Bytes(flags) == [flags];
    AtU8(buf, o, flags);
    AtU32(buf, o + 1, code);
    AtCStr(buf, o + 5, e.stopReasonDetail);
    var o3 := o + 5 + |e.stopReasonDetail| + 1;
    AtU32(buf, o3, e.line);
    At3(buf, o3 + 4, CStr(e.functionName), CStr(e.file), CStr(e.codeSnippet));
    AtCStr(buf, o3 + 4, e.functionName);
    AtCStr(buf, o3 + 4 + |e.functionName| + 1, e.file);
    AtCStr(buf, o3 + 4 + |e.functionName| + 1 + |e.file| + 1, e.codeSnippet);
  }

  /** Any byte but 0 means success, and any stop code but 0 is given as the reason it stands for. */
  lemma EvalReads(buf: Bytes, o: nat, success: byte, code: byte, errors: ErrorLists)
    requires Responses.ErrorListsFit(errors) && At(buf, o, [success] + [code] + Responses.ErrorListsBytes(errors))
    ensures Responses.DecodeEval(buf, o)
         == Ok(Evaluated(success != 0, if code == 0 then None else Some(Responses.StopReasonOf(code)), errors),
               o + 2 + |Responses.ErrorListsBytes(errors)|)
  {
    hide At, ReadU8, Responses.DecodeErrorLists, Responses.ErrorListsBytes, Responses.StopReasonOf;
    At3(buf, o, [success], [code], Responses.ErrorListsBytes(errors));
    assert U8Bytes(success) == [success] && U8Bytes(code) == [code];
    AtU8(buf, o, success);
    AtU8(buf, o + 1, code);
    Responses.ErrorListsRoundTrip(buf, o + 2, errors);
  }

  /** Any byte but 0 is true. */
  lemma BooleanReads(buf: Bytes, o: nat, b: byte)
    requires At(buf, o, [b])
    ensures Responses.DecodeValue(Boolean, buf, o) == Ok(Bool(b != 0), o + 1)
  {
    assert U8Bytes(b) == [b];
    AtU8(buf, o, b);
  }

  /** The two names of a subtyped object are joined by "; ", unless the second is empty. */
  lemma SubtypedReads(buf: Bytes, o: nat, name: Text, subtype: Text)
    requires At(buf, o, CStr(name) + CStr(subtype))
    ensures Responses.DecodeValue(SubtypedObject, buf, o)
         == Ok(Str(if subtype == [] then name else name + [59, 32] + subtype), o + |name| + |subtype| + 2)
  {
    hide At, ReadCStr;
    At2(buf, o, CStr(name), CStr(subtype));
    AtCStr(buf, o, name);
    AtCStr(buf, o + |name| + 1, subtype);
  }

  function If(present: bool, bs: Bytes): Bytes { if present then bs else [] }

  /** The bytes of a value are read, wherever they stand, as this value of this type. */
  ghost predicate ValueReads(buf: Bytes, t: VarType, bs: Bytes, value: VarValue) {
    forall o: nat {:trigger Responses.DecodeValue(t, buf, o)} ::
      At(buf, o, bs) ==> Responses.DecodeValue(t, buf, o) == Ok(value, o + |bs|)
  }

  /**
   Any flags byte and any type codes: a part is read exactly if its bit is set, in the order name, reference count,
   container, value.
   */
  lemma VariableReads(buf: Bytes, o: nat, i: nat, flags: byte, code: byte, name: Text, refCount: int, keyCode: byte,
                      childCount: int, bs: Bytes, value: VarValue)
    requires IsU32(refCount) && IsU32(childCount)
    requires At(buf, o, [flags, code] + If(flags % 16 >= 8, CStr(name)) + If(flags % 32 >= 16, U32Bytes(refCount))
                        + If(flags % 8 >= 4, [keyCode] + U32Bytes(childCount)) + If(flags % 64 >= 32, bs))
    requires flags % 64 >= 32 ==> ValueReads(buf, Responses.TypeOf(code), bs, value)
    ensures var r := Responses.DecodeVariable(buf, o, i);
            && r.Ok?
            && r.value.name == (if flags % 16 >= 8 then Some(name) else None)
            && r.value.refCount == (if flags % 32 >= 16 then Some(refCount) else None)
            && r.value.keyType == (if flags % 8 >= 4 then Some(Responses.TypeOf(keyCode)) else None)
            && r.value.childCount == (if flags % 8 >= 4 then Some(childCount) else None)
            && r.value.typ == Responses.TypeOf(code)
            && r.value.value == (if flags % 64 >= 32 then value else Null)
            && r.value.isChildKey == (if flags % 2 == 1 then Some(true) else None)
            && r.value.isConst == (if flags % 4 >= 2 then Some(true) else None)
            && r.value.isContainer == (if flags % 8 >= 4 then Some(true) else None)
            && r.value.isVirtual == (if flags >= 128 then Some(true) else None)
  {
    hide At, U32Bytes, CStr, ReadU32, ReadCStr, ReadU8, Responses.TypeOf, Responses.DecodeValue, Responses.Bit;
    BitsOf(flags);
    var a, b := If(flags % 16 >= 8, CStr(name)), If(flags % 32 >= 16, U32Bytes(refCount));
    var c, d := If(flags % 8 >= 4, [keyCode] + U32Bytes(childCount)), If(flags % 64 >= 32, bs);
    At5(buf, o, [flags, code], a, b, c, d);
    HeaderReads(buf, o, flags, code);
    var o3 := o + 2 + |a|;
    var o4 := o3 + |b|;
    if flags % 16 >= 8 { AtCStr(buf, o + 2, name); }
    if flags % 32 >= 16 { AtU32(buf, o3, refCount); }
    if flags % 8 >= 4 { ContainerReads(buf, o4, keyCode, childCount); }
  }

  lemma HeaderReads(buf: Bytes, o: nat, a: byte, b: byte)
    requires At(buf, o, [a, b])
    ensures ReadU8(buf, o) == Ok(a, o + 1) && ReadU8(buf, o + 1) == Ok(b, o + 2)
  {
    assert buf[o] == buf[o..o + 2][0] && buf[o + 1] == buf[o..o + 2][1];
  }

  lemma ContainerReads(buf: Bytes, o: nat, keyCode: byte, childCount: int)
    requires IsU32(childCount) && At(buf, o, [keyCode] + U32Bytes(childCount))
    ensures ReadU8(buf, o) == Ok(keyCode, o + 1) && ReadU32(buf, o + 1) == Ok(childCount, o + 5)
  {
    At2(buf, o, [keyCode], U32Bytes(childCount));
    assert U8Bytes(keyCode) == [keyCode];
    AtU8(buf, o, keyCode);
    AtU32(buf, o + 1, childCount);
  }

  lemma BitIs(n: int, mask: int)
    requires mask > 0
    ensures Responses.Bit(n, mask) <==> n % (2 * mask) >= mask
  {
    var q, r := n / mask, n % mask;
    BitRest(mask, q % 2, r);
    BitSplit(n, mask, q / 2, q % 2, r);
    Responses.QuotientUnique(2 * mask, q / 2, mask * (q % 2) + r, n / (2 * mask), n % (2 * mask));
  }

  lemma BitRest(mask: int, d: int, r: int)
    requires 0 <= r < mask && 0 <= d <= 1
    ensures 0 <= mask * d + r < 2 * mask && (mask * d + r >= mask <==> d == 1)
  {
    assert d == 0 || d == 1;
  }

  lemma BitSplit(n: int, mask: int, half: int, d: int, r: int)
    requires mask > 0 && n == mask * (2 * half + d) + r
    ensures n == 2 * mask * half + (mask * d + r) && n == 2 * mask * (n / (2 * mask)) + n % (2 * mask)
  {
    assert mask * (2 * half + d) == 2 * mask * half + mask * d;
  }

  lemma BitsOf(flags: byte)
    ensures Responses.Bit(flags, 1) <==> flags % 2 == 1
    ensures Responses.Bit(flags, 2) <==> flags % 4 >= 2
    ensures Responses.Bit(flags, 4) <==> flags % 8 >= 4
    ensures Responses.Bit(flags, 8) <==> flags % 16 >= 8
    ensures Responses.Bit(flags, 16) <==> flags % 32 >= 16
    ensures Responses.Bit(flags, 32) <==> flags % 64 >= 32
    ensures Responses.Bit(flags, 128) <==> flags >= 128
  {
    hide Responses.Bit;
    BitIs(flags, 1);
    BitIs(flags, 2);
    BitIs(flags, 4);
    BitIs(flags, 8);
    BitIs(flags, 16);
    BitIs(flags, 32);
    BitIs(flags, 128);
  }
}

/**
 The request half of the wire codec: `[command:4][args...]`.
 */
module WireRequests {
  import opened Wrappers
  import opened Bytes
  import opened Messages

  const STOP := 1
  const CONTINUE := 2
  const THREADS := 3
  const STACK_TRACE := 4
  const VARIABLES := 5
  const STEP := 6
  const ADD_BREAKPOINTS := 7
  const LIST_BREAKPOINTS := 8
  const REMOVE_BREAKPOINTS := 9
  const EXECUTE := 10
  const ADD_CONDITIONAL_BREAKPOINTS := 11
  const SET_EXCEPTION_BREAKPOINTS := 12
  const EXIT_CHANNEL := 122

  // ---------------------------------------------------------------- encoding

  function StepTypeCode(g: Granularity): int {
    match g
    case Line => 1
    case Out => 2
    case Over => 3
  }

  function GranularityOf(code: int): Granularity {
    if code == 2 then Out else if code == 3 then Over else Line
  }

  function VariablesFlags(req: Request): int
    requires req.Variables?
  {
    (if req.getChildKeys == Some(true) then 1 else 0) + (if req.getVirtualKeys == Some(true) then 4 else 0)
  }

  function BreakpointBytes(bp: Breakpoint): Bytes {
    CStr(bp.file) + U32Bytes(bp.line) + U32Bytes(bp.ignoreCount.GetOr(0))
  }

  function CondBreakpointBytes(bp: CondBreakpoint): Bytes {
    CStr(bp.file) + U32Bytes(bp.line) + U32Bytes(bp.ignoreCount.GetOr(0)) + CStr(bp.conditionalExpression)
  }

  function FilterBytes(f: ExceptionFilter): Bytes {
    U32Bytes(f.filterTypeId) + CStr(f.conditionExpression)
  }

  function RequestBytes(req: Request): Bytes
    requires !req.Connect?
  {
    match req
    case Pause => U32Bytes(STOP)
    case Continue(t) => U32Bytes(CONTINUE) + U32Bytes(t)
    case Step(t, g) => U32Bytes(STEP) + U32Bytes(t) + U8Bytes(StepTypeCode(g))
    case Threads => U32Bytes(THREADS)
    case StackTrace(t) => U32Bytes(STACK_TRACE) + U32Bytes(t)
    case Variables(t, f, path, _, _) =>
      U32Bytes(VARIABLES) + U8Bytes(VariablesFlags(req)) + U32Bytes(t) + U32Bytes(f)
      + Counted(TextBytes, path.GetOr([]))
    case Eval(t, f, e) => U32Bytes(EXECUTE) + U32Bytes(t) + U32Bytes(f) + CStr(e)
    case AddBreakpoints(bps) => U32Bytes(ADD_BREAKPOINTS) + Counted(BreakpointBytes, bps)
    case AddConditionalBreakpoints(bps) =>
      U32Bytes(ADD_CONDITIONAL_BREAKPOINTS) + U32Bytes(0) + Counted(CondBreakpointBytes, bps)
    case RemoveBreakpoints(ids) => U32Bytes(REMOVE_BREAKPOINTS) + Counted(U32Bytes, ids)
    case ListBreakpoints => U32Bytes(LIST_BREAKPOINTS)
    case SetExceptionBreakpoints(fs) => U32Bytes(SET_EXCEPTION_BREAKPOINTS) + Counted(FilterBytes, fs)
    case ExitChannel => U32Bytes(EXIT_CHANNEL)
  }

  predicate BreakpointFits(bp: Breakpoint) { IsU32(bp.line) && IsU32(bp.ignoreCount.GetOr(0)) }

  predicate CondBreakpointFits(bp: CondBreakpoint) { IsU32(bp.line) && IsU32(bp.ignoreCount.GetOr(0)) }

  predicate FilterFits(f: ExceptionFilter) { IsU32(f.filterTypeId) }

  /** Every number fits the field it is written to; writing any other number throws. */
  predicate RequestFits(req: Request) {
    match req
    case Continue(t) => IsU32(t)
    case Step(t, _) => IsU32(t)
    case StackTrace(t) => IsU32(t)
    case Variables(t, f, path, _, _) => IsU32(t) && IsU32(f) && IsU32(|path.GetOr([])|)
    case Eval(t, f, _) => IsU32(t) && IsU32(f)
    case AddBreakpoints(bps) => IsU32(|bps|) && forall bp :: bp in bps ==> BreakpointFits(bp)
    case AddConditionalBreakpoints(bps) => IsU32(|bps|) && forall bp :: bp in bps ==> CondBreakpointFits(bp)
    case RemoveBreakpoints(ids) => IsU32(|ids|) && forall id :: id in ids ==> IsU32(id)
    case SetExceptionBreakpoints(fs) => IsU32(|fs|) && forall f :: f in fs ==> FilterFits(f)
    case _ => true
  }

  function EncodeRequest(req: Request): Result<Bytes> {
    if req.Connect? then Failure(NoWireForm)
    else if !RequestFits(req) then Failure(OutOfRange)
    else Success(RequestBytes(req))
  }

  // ---------------------------------------------------------------- decoding

  function NonZero(n: int): Option<int> { if n != 0 then Some(n) else None }

  function DecodeBreakpoint(buf: Bytes, offset: nat, i: nat): Parsed<Breakpoint> {
    var (file, o1) :- ReadCStr(buf, offset);
    var (line, o2) :- ReadU32(buf, o1);
    var (ignoreCount, o3) :- ReadU32(buf, o2);
    Ok(Breakpoint(file, line, NonZero(ignoreCount)), o3)
  }

  function DecodeCondBreakpoint(buf: Bytes, offset: nat, i: nat): Parsed<CondBreakpoint> {
    var (file, o1) :- ReadCStr(buf, offset);
    var (line, o2) :- ReadU32(buf, o1);
    var (ignoreCount, o3) :- ReadU32(buf, o2);
    var (condition, o4) :- ReadCStr(buf, o3);
    Ok(CondBreakpoint(file, line, NonZero(ignoreCount), condition), o4)
  }

  function DecodeFilter(buf: Bytes, offset: nat, i: nat): Parsed<ExceptionFilter> {
    var (filterTypeId, o1) :- ReadU32(buf, offset);
    var (condition, o2) :- ReadCStr(buf, o1);
    Ok(ExceptionFilter(filterTypeId, condition), o2)
  }

  function DecodeVariables(payload: Bytes): Parsed<Request> {
    var (flags, o1) :- ReadU8(payload, 4);
    var (t, o2) :- ReadU32(payload, o1);
    var (f, o3) :- ReadU32(payload, o2);
    var (path, o4) :- DecodeCounted(DecodeText, payload, o3);
    Ok(Variables(t, f, if path == [] then None else Some(path),
                 if flags % 2 == 1 then Some(true) else None,
                 if flags / 4 % 2 == 1 then Some(true) else None), o4)
  }

  function DecodeArgs(command: int, payload: Bytes): Parsed<Request> {
    if command == STOP then Ok(Pause, 4)
    else if command == CONTINUE then
      var (t, o) :- ReadU32(payload, 4);
      Ok(Continue(t), o)
    else if command == STEP then
      var (t, o1) :- ReadU32(payload, 4);
      var (code, o2) :- ReadU8(payload, o1);
      Ok(Step(t, GranularityOf(code)), o2)
    else if command == THREADS then Ok(Threads, 4)
    else if command == STACK_TRACE then
      var (t, o) :- ReadU32(payload, 4);
      Ok(StackTrace(t), o)
    else if command == VARIABLES then DecodeVariables(payload)
    else if command == EXECUTE then
      var (t, o1) :- ReadU32(payload, 4);
      var (f, o2) :- ReadU32(payload, o1);
      var (e, o3) :- ReadCStr(payload, o2);
      Ok(Eval(t, f, e), o3)
    else if command == ADD_BREAKPOINTS then
      var (bps, o) :- DecodeCounted(DecodeBreakpoint, payload, 4);
      Ok(AddBreakpoints(bps), o)
    else if command == ADD_CONDITIONAL_BREAKPOINTS then
      var (bps, o) :- DecodeCounted(DecodeCondBreakpoint, payload, 8);
      Ok(AddConditionalBreakpoints(bps), o)
    else if command == REMOVE_BREAKPOINTS then
      var (ids, o) :- DecodeCounted(DecodeU32, payload, 4);
      Ok(RemoveBreakpoints(ids), o)
    else if command == LIST_BREAKPOINTS then Ok(ListBreakpoints, 4)
    else if command == SET_EXCEPTION_BREAKPOINTS then
      var (fs, o) :- DecodeCounted(DecodeFilter, payload, 4);
      Ok(SetExceptionBreakpoints(fs), o)
    else if command == EXIT_CHANNEL then Ok(ExitChannel, 4)
    else Err(UnknownCode(command))
  }

  function DecodeRequest(payload: Bytes): Result<Request> {
    if |payload| < 4 then Failure(TooShort)
    else
      match ReadU32(payload, 0)
      case Err(e) => Failure(e)
      case Ok(command, _) =>
        match DecodeArgs(command, payload)
        case Err(e) => Failure(e)
        case Ok(req, _) => Success(req)
  }

  // ---------------------------------------------------------------- normal form

  function TrueOnly(b: Option<bool>): Option<bool> { if b == Some(true) then b else None }

  function NormBreakpoint(bp: Breakpoint, i: nat): Breakpoint {
    bp.(ignoreCount := NonZero(bp.ignoreCount.GetOr(0)))
  }

  function NormCondBreakpoint(bp: CondBreakpoint, i: nat): CondBreakpoint {
    bp.(ignoreCount := NonZero(bp.ignoreCount.GetOr(0)))
  }

  /** What a request means on the wire: an empty path, a false flag and a zero count are absent. */
  function NormRequest(req: Request): Request {
    match req
    case Variables(t, f, path, children, virtuals) =>
      Variables(t, f, if path.GetOr([]) == [] then None else path, TrueOnly(children), TrueOnly(virtuals))
    case AddBreakpoints(bps) => AddBreakpoints(MapIndexed(NormBreakpoint, bps, 0))
    case AddConditionalBreakpoints(bps) => AddConditionalBreakpoints(MapIndexed(NormCondBreakpoint, bps, 0))
    case _ => req
  }

  /** What the normal form changes: an empty path, flags that are not true and counts of zero become absent. */
  lemma NormRequestIs(req: Request)
    ensures match (req, NormRequest(req))
            case (Variables(t, f, path, children, virtuals), n) =>
              n == Variables(t, f, if path == Some([]) then None else path,
                             if children == Some(true) then Some(true) else None,
                             if virtuals == Some(true) then Some(true) else None)
            case (AddBreakpoints(bps), AddBreakpoints(ns)) =>
              |ns| == |bps| && forall i :: 0 <= i < |bps| ==>
                ns[i] == bps[i].(ignoreCount := if bps[i].ignoreCount == Some(0) then None else bps[i].ignoreCount)
            case (AddConditionalBreakpoints(bps), AddConditionalBreakpoints(ns)) =>
              |ns| == |bps| && forall i :: 0 <= i < |bps| ==>
                ns[i] == bps[i].(ignoreCount := if bps[i].ignoreCount == Some(0) then None else bps[i].ignoreCount)
            case (_, n) => n == req
  {
  }

  // ---------------------------------------------------------------- round trip

  lemma BreakpointReadsBack(buf: Bytes, bp: Breakpoint)
    requires BreakpointFits(bp)
    ensures ReadsBack(BreakpointBytes, DecodeBreakpoint, NormBreakpoint, buf, bp)
  {
    hide At, U32Bytes, ReadU32, ReadCStr;
    forall offset: nat, i: nat | At(buf, offset, BreakpointBytes(bp))
      ensures DecodeBreakpoint(buf, offset, i) == Ok(NormBreakpoint(bp, i), offset + |BreakpointBytes(bp)|)
    {
      var n := bp.ignoreCount.GetOr(0);
      At3(buf, offset, CStr(bp.file), U32Bytes(bp.line), U32Bytes(n));
      AtCStr(buf, offset, bp.file);
      AtU32(buf, offset + |bp.file| + 1, bp.line);
      AtU32(buf, offset + |bp.file| + 5, n);
    }
  }

  lemma CondBreakpointReadsBack(buf: Bytes, bp: CondBreakpoint)
    requires CondBreakpointFits(bp)
    ensures ReadsBack(CondBreakpointBytes, DecodeCondBreakpoint, NormCondBreakpoint, buf, bp)
  {
    hide At, U32Bytes, ReadU32, ReadCStr;
    forall offset: nat, i: nat | At(buf, offset, CondBreakpointBytes(bp))
      ensures DecodeCondBreakpoint(buf, offset, i)
           == Ok(NormCondBreakpoint(bp, i), offset + |CondBreakpointBytes(bp)|)
    {
      var n := bp.ignoreCount.GetOr(0);
      At4(buf, offset, CStr(bp.file), U32Bytes(bp.line), U32Bytes(n), CStr(bp.conditionalExpression));
      AtCStr(buf, offset, bp.file);
      AtU32(buf, offset + |bp.file| + 1, bp.line);
      AtU32(buf, offset + |bp.file| + 5, n);
      AtCStr(buf, offset + |bp.file| + 9, bp.conditionalExpression);
    }
  }

  lemma FilterReadsBack(buf: Bytes, f: ExceptionFilter)
    requires FilterFits(f)
    ensures ReadsBack(FilterBytes, DecodeFilter, Same, buf, f)
  {
    hide At, U32Bytes, ReadU32, ReadCStr;
    forall offset: nat, i: nat | At(buf, offset, FilterBytes(f))
      ensures DecodeFilter(buf, offset, i) == Ok(f, offset + |FilterBytes(f)|)
    {
      At2(buf, offset, U32Bytes(f.filterTypeId), CStr(f.conditionExpression));
      AtU32(buf, offset, f.filterTypeId);
      AtCStr(buf, offset + 4, f.conditionExpression);
    }
  }

  lemma VariablesRoundTrip(req: Request)
    requires req.Variables? && RequestFits(req)
    ensures DecodeArgs(VARIABLES, RequestBytes(req)) == Ok(NormRequest(req), |RequestBytes(req)|)
  {
    hide At, U32Bytes, ReadU32, ReadCStr, Counted, DecodeCounted;
    var buf, path := RequestBytes(req), req.varPath.GetOr([]);
    AtSelf(buf);
    At5(buf, 0, U32Bytes(VARIABLES), U8Bytes(VariablesFlags(req)), U32Bytes(req.threadId),
        U32Bytes(req.frameIdx), Counted(TextBytes, path));
    AtU8(buf, 4, VariablesFlags(req));
    AtU32(buf, 5, req.threadId);
    AtU32(buf, 9, req.frameIdx);
    forall s: Text | s in path ensures ReadsBack<Text, Text>(TextBytes, DecodeText, Same, buf, s) {
      TextReadsBack(buf, s);
    }
    CountedRoundTrip<Text, Text>(TextBytes, DecodeText, Same, buf, 13, path);
    SameList(path);
  }

  lemma AddBreakpointsRoundTrip(bps: seq<Breakpoint>)
    requires RequestFits(AddBreakpoints(bps))
    ensures var req := AddBreakpoints(bps);
            DecodeArgs(ADD_BREAKPOINTS, RequestBytes(req)) == Ok(NormRequest(req), |RequestBytes(req)|)
  {
    hide At, U32Bytes, ReadU32, ReadCStr, Counted, DecodeCounted;
    var buf := RequestBytes(AddBreakpoints(bps));
    AtSelf(buf);
    At2(buf, 0, U32Bytes(ADD_BREAKPOINTS), Counted(BreakpointBytes, bps));
    forall bp | bp in bps ensures ReadsBack(BreakpointBytes, DecodeBreakpoint, NormBreakpoint, buf, bp) {
      BreakpointReadsBack(buf, bp);
    }
    CountedRoundTrip(BreakpointBytes, DecodeBreakpoint, NormBreakpoint, buf, 4, bps);
  }

  lemma AddConditionalRoundTrip(bps: seq<CondBreakpoint>)
    requires RequestFits(AddConditionalBreakpoints(bps))
    ensures var req := AddConditionalBreakpoints(bps);
            DecodeArgs(ADD_CONDITIONAL_BREAKPOINTS, RequestBytes(req)) == Ok(NormRequest(req), |RequestBytes(req)|)
  {
    hide At, U32Bytes, ReadU32, ReadCStr, Counted, DecodeCounted;
    var buf := RequestBytes(AddConditionalBreakpoints(bps));
    AtSelf(buf);
    At3(buf, 0, U32Bytes(ADD_CONDITIONAL_BREAKPOINTS), U32Bytes(0), Counted(CondBreakpointBytes, bps));
    forall bp | bp in bps
      ensures ReadsBack(CondBreakpointBytes, DecodeCondBreakpoint, NormCondBreakpoint, buf, bp)
    {
      CondBreakpointReadsBack(buf, bp);
    }
    CountedRoundTrip(CondBreakpointBytes, DecodeCondBreakpoint, NormCondBreakpoint, buf, 8, bps);
  }

  lemma RemoveBreakpointsRoundTrip(ids: seq<int>)
    requires RequestFits(RemoveBreakpoints(ids))
    ensures var req := RemoveBreakpoints(ids);
            DecodeArgs(REMOVE_BREAKPOINTS, RequestBytes(req)) == Ok(req, |RequestBytes(req)|)
  {
    hide At, U32Bytes, ReadU32, ReadCStr, Counted, DecodeCounted;
    var buf := RequestBytes(RemoveBreakpoints(ids));
    AtSelf(buf);
    At2(buf, 0, U32Bytes(REMOVE_BREAKPOINTS), Counted(U32Bytes, ids));
    forall id | id in ids ensures ReadsBack(U32Bytes, DecodeU32, Same, buf, id) { U32ReadsBack(buf, id); }
    CountedRoundTrip(U32Bytes, DecodeU32, Same, buf, 4, ids);
    SameList(ids);
  }

  lemma FiltersRoundTrip(fs: seq<ExceptionFilter>)
    requires RequestFits(SetExceptionBreakpoints(fs))
    ensures var req := SetExceptionBreakpoints(fs);
            DecodeArgs(SET_EXCEPTION_BREAKPOINTS, RequestBytes(req)) == Ok(req, |RequestBytes(req)|)
  {
    hide At, U32Bytes, ReadU32, ReadCStr, Counted, DecodeCounted;
    var buf := RequestBytes(SetExceptionBreakpoints(fs));
    AtSelf(buf);
    At2(buf, 0, U32Bytes(SET_EXCEPTION_BREAKPOINTS), Counted(FilterBytes, fs));
    forall f | f in fs ensures ReadsBack(FilterBytes, DecodeFilter, Same, buf, f) { FilterReadsBack(buf, f); }
    CountedRoundTrip(FilterBytes, DecodeFilter, Same, buf, 4, fs);
    SameList(fs);
  }

  predicate HasList(req: Request) {
    req.Variables? || req.AddBreakpoints? || req.AddConditionalBreakpoints? || req.RemoveBreakpoints?
    || req.SetExceptionBreakpoints?
  }

  /** The requests that carry only fixed-width numbers and at most one string. */
  lemma FlatRequestRoundTrip(req: Request)
    requires !req.Connect? && !HasList(req) && RequestFits(req)
    ensures DecodeArgs(CommandOf(req), RequestBytes(req)) == Ok(req, |RequestBytes(req)|)
  {
    hide At, U32Bytes, ReadU32, ReadCStr;
    var buf := RequestBytes(req);
    AtSelf(buf);
    match req
    case Continue(t) =>
      At2(buf, 0, U32Bytes(CONTINUE), U32Bytes(t));
      AtU32(buf, 4, t);
    case StackTrace(t) =>
      At2(buf, 0, U32Bytes(STACK_TRACE), U32Bytes(t));
      AtU32(buf, 4, t);
    case Step(t, g) =>
      At3(buf, 0, U32Bytes(STEP), U32Bytes(t), U8Bytes(StepTypeCode(g)));
      AtU32(buf, 4, t);
      AtU8(buf, 8, StepTypeCode(g));
    case Eval(t, f, e) =>
      At4(buf, 0, U32Bytes(EXECUTE), U32Bytes(t), U32Bytes(f), CStr(e));
      AtU32(buf, 4, t);
      AtU32(buf, 8, f);
      AtCStr(buf, 12, e);
    case _ =>
  }

  ghost function CommandOf(req: Request): int
    requires !req.Connect?
  {
    match req
    case Pause => STOP
    case Continue(_) => CONTINUE
    case Step(_, _) => STEP
    case Threads => THREADS
    case StackTrace(_) => STACK_TRACE
    case Variables(_, _, _, _, _) => VARIABLES
    case Eval(_, _, _) => EXECUTE
    case AddBreakpoints(_) => ADD_BREAKPOINTS
    case AddConditionalBreakpoints(_) => ADD_CONDITIONAL_BREAKPOINTS
    case RemoveBreakpoints(_) => REMOVE_BREAKPOINTS
    case ListBreakpoints => LIST_BREAKPOINTS
    case SetExceptionBreakpoints(_) => SET_EXCEPTION_BREAKPOINTS
    case ExitChannel => EXIT_CHANNEL
  }

  /** Every request starts with its own command code. */
  lemma CommandReadsBack(req: Request)
    requires !req.Connect?
    ensures ReadU32(RequestBytes(req), 0) == Ok(CommandOf(req), 4)
  {
    var buf := RequestBytes(req);
    assert buf[..4] == U32Bytes(CommandOf(req));
    AtU32(buf, 0, CommandOf(req));
  }

  lemma ArgsRoundTrip(req: Request)
    requires !req.Connect? && RequestFits(req)
    ensures DecodeArgs(CommandOf(req), RequestBytes(req)) == Ok(NormRequest(req), |RequestBytes(req)|)
  {
    hide DecodeArgs;
    hide RequestBytes;
    match req
    case Variables(_, _, _, _, _) => VariablesRoundTrip(req);
    case AddBreakpoints(bps) => AddBreakpointsRoundTrip(bps);
    case AddConditionalBreakpoints(bps) => AddConditionalRoundTrip(bps);
    case RemoveBreakpoints(ids) => RemoveBreakpointsRoundTrip(ids);
    case SetExceptionBreakpoints(fs) => FiltersRoundTrip(fs);
    case _ => FlatRequestRoundTrip(req);
  }

  /** Whatever request the encoder accepts, the decoder returns in normal form. */
  lemma RequestRoundTrip(req: Request)
    requires EncodeRequest(req).Success?
    ensures DecodeRequest(EncodeRequest(req).value) == Success(NormRequest(req))
  {
    CommandReadsBack(req);
    ArgsRoundTrip(req);
  }

  /** Requests have the same bytes exactly when they have the same normal form: nothing else is lost. */
  lemma RequestBytesDetermineNorm(a: Request, b: Request)
    requires EncodeRequest(a).Success? && EncodeRequest(b).Success?
    ensures EncodeRequest(a) == EncodeRequest(b) <==> NormRequest(a) == NormRequest(b)
  {
    RequestRoundTrip(a);
    RequestRoundTrip(b);
    NormKeepsRequestBytes(a);
    NormKeepsRequestBytes(b);
  }

  lemma NormKeepsRequestBytes(req: Request)
    requires !req.Connect?
    ensures RequestBytes(NormRequest(req)) == RequestBytes(req)
  {
    match req
    case AddBreakpoints(bps) =>
      EncodeAllCongruence(BreakpointBytes, BreakpointBytes, bps, MapIndexed(NormBreakpoint, bps, 0));
    case AddConditionalBreakpoints(bps) =>
      EncodeAllCongruence(CondBreakpointBytes, CondBreakpointBytes, bps, MapIndexed(NormCondBreakpoint, bps, 0));
    case _ =>
  }
}

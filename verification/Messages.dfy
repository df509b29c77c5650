/**
 The logical messages of the debug protocol. Optional fields are `Option`s; a JavaScript
 number is an `int`, so that a number too large for its field can be expressed.
 */
module Messages {
  import opened Wrappers
  import opened Bytes

  datatype Version = Version(major: int, minor: int, patch: int)

  datatype StopReason =
    | Undefined | NotStopped | NormalExit | StopStatement | Break | RuntimeError | CaughtRuntimeError

  datatype Granularity = Line | Over | Out

  // ---------------------------------------------------------------- requests

  datatype Breakpoint = Breakpoint(file: Text, line: int, ignoreCount: Option<int>)

  datatype CondBreakpoint =
    CondBreakpoint(file: Text, line: int, ignoreCount: Option<int>, conditionalExpression: Text)

  datatype ExceptionFilter = ExceptionFilter(filterTypeId: int, conditionExpression: Text)

  datatype Request =
    | Connect(min: Version, max: Version)
    | Pause
    | Continue(threadId: int)
    | Step(threadId: int, granularity: Granularity)
    | Threads
    | StackTrace(threadId: int)
    | Variables(threadId: int, frameIdx: int, varPath: Option<seq<Text>>,
                getChildKeys: Option<bool>, getVirtualKeys: Option<bool>)
    | Eval(threadId: int, frameIdx: int, expression: Text)
    | AddBreakpoints(breakpoints: seq<Breakpoint>)
    | AddConditionalBreakpoints(condBreakpoints: seq<CondBreakpoint>)
    | RemoveBreakpoints(ids: seq<int>)
    | ListBreakpoints
    | SetExceptionBreakpoints(filters: seq<ExceptionFilter>)
    | ExitChannel

  // ---------------------------------------------------------------- responses

  datatype VarType =
    | AssociativeArray | Array | Boolean | Double | Float | Function | Integer | Interface | Invalid | List
    | LongInteger | Object | String | Subroutine | SubtypedObject | Uninitialized | Unknown
    | OtherType(name: Text)  // any type name that the code table lacks

  /** A serialized value. `Whole` is a whole number; `Bits32` and `Bits64` are opaque floats. */
  datatype VarValue =
    | Null | Str(s: Text) | Bool(b: bool) | Whole(n: int) | Bits32(f: Bytes) | Bits64(d: Bytes)

  datatype Variable = Variable(
    name: Option<Text>, typ: VarType, value: VarValue,
    isChildKey: Option<bool>, isConst: Option<bool>, isContainer: Option<bool>, isVirtual: Option<bool>,
    keyType: Option<VarType>, childCount: Option<int>, refCount: Option<int>)

  datatype BreakpointEntry = BreakpointEntry(breakpointId: int, errorCode: int, ignoreCount: Option<int>)

  datatype ThreadEntry = ThreadEntry(
    id: int, isPrimary: bool, isDetached: bool, stopReason: StopReason, stopReasonDetail: Text,
    line: int, functionName: Text, file: Text, codeSnippet: Text)

  datatype StackFrame = StackFrame(idx: int, file: Text, line: int, functionName: Option<Text>)

  datatype FilterStatus = FilterStatus(filterTypeId: int, errorCode: int)

  datatype ErrorLists = ErrorLists(compileErrors: seq<Text>, runtimeErrors: seq<Text>, otherErrors: seq<Text>)

  datatype ResponseKind =
    | ConnectedKind | PausedKind | ContinuedKind | SteppedKind | ThreadsKind | StackTraceKind | VariablesKind
    | EvalKind | BreakpointsAddedKind | ConditionalBreakpointsAddedKind | BreakpointsRemovedKind
    | BreakpointsListKind | ExceptionBreakpointsSetKind | ExitedKind | ErrorKind

  datatype Response =
    | Connected(bdpVersion: Version)
    | Paused
    | Continued
    | Stepped
    | ThreadList(threads: seq<ThreadEntry>)
    | StackFrames(frames: seq<StackFrame>)
    | VariableList(variables: seq<Variable>)
    | Evaluated(success: bool, runtimeStopReason: Option<StopReason>, errors: ErrorLists)
    | BreakpointsAdded(entries: seq<BreakpointEntry>)
    | ConditionalBreakpointsAdded(entries: seq<BreakpointEntry>)
    | BreakpointsRemoved(entries: seq<BreakpointEntry>)
    | BreakpointsList(entries: seq<BreakpointEntry>)
    | ExceptionBreakpointsSet(statuses: seq<FilterStatus>)
    | Exited
    | Sentinel(code: Text, message: Text)  // the client-side 'error' response
  {
    function Kind(): ResponseKind {
      match this
      case Connected(_) => ConnectedKind
      case Paused => PausedKind
      case Continued => ContinuedKind
      case Stepped => SteppedKind
      case ThreadList(_) => ThreadsKind
      case StackFrames(_) => StackTraceKind
      case VariableList(_) => VariablesKind
      case Evaluated(_, _, _) => EvalKind
      case BreakpointsAdded(_) => BreakpointsAddedKind
      case ConditionalBreakpointsAdded(_) => ConditionalBreakpointsAddedKind
      case BreakpointsRemoved(_) => BreakpointsRemovedKind
      case BreakpointsList(_) => BreakpointsListKind
      case ExceptionBreakpointsSet(_) => ExceptionBreakpointsSetKind
      case Exited => ExitedKind
      case Sentinel(_, _) => ErrorKind
    }
  }

  /** Which responses may answer which request. */
  predicate Answers(req: Request, res: Response) {
    match req
    case Connect(_, _) => res.Connected?
    case Pause => res.Paused?
    case Continue(_) => res.Continued?
    case Step(_, _) => res.Stepped?
    case Threads => res.ThreadList?
    case StackTrace(_) => res.StackFrames?
    case Variables(_, _, _, _, _) => res.VariableList?
    case Eval(_, _, _) => res.Evaluated?
    case AddBreakpoints(_) => res.BreakpointsAdded?
    case AddConditionalBreakpoints(_) => res.ConditionalBreakpointsAdded?
    case RemoveBreakpoints(_) => res.BreakpointsRemoved?
    case ListBreakpoints => res.BreakpointsList?
    case SetExceptionBreakpoints(_) => res.ExceptionBreakpointsSet?
    case ExitChannel => res.Exited?
  }

  // ---------------------------------------------------------------- events

  datatype Event =
    | Stopped(threadId: int, stopReason: StopReason, stopReasonDetail: Text)
    | ThreadAttached(threadId: int, stopReason: StopReason, stopReasonDetail: Text)
    | IOPortOpened(port: int)
    | CompileError(message: Text, file: Text, line: int, libraryName: Text)
    | BreakpointError(breakpointId: int, errors: ErrorLists)
    | BreakpointVerified(breakpointIds: seq<int>)
    | ProtocolError
    | ExceptionBreakpointError(filterId: int, errors: ErrorLists, line: int, file: Text)
}

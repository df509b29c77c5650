/**
 The event half of the wire codec: `[error_code:4][update_type:4][data...]`.
 */
module WireEvents {
  import opened Bytes
  import opened Messages
  import opened WireResponses

  const IO_PORT_OPENED := 1
  const ALL_THREADS_STOPPED := 2
  const THREAD_ATTACHED := 3
  const BREAKPOINT_ERROR := 4
  const COMPILE_ERROR := 5
  const BREAKPOINT_VERIFIED := 6
  const PROTOCOL_ERROR := 7
  const EXCEPTION_BREAKPOINT_ERROR := 8

  function UpdateType(e: Event): int {
    match e
    case IOPortOpened(_) => IO_PORT_OPENED
    case Stopped(_, _, _) => ALL_THREADS_STOPPED
    case ThreadAttached(_, _, _) => THREAD_ATTACHED
    case BreakpointError(_, _) => BREAKPOINT_ERROR
    case CompileError(_, _, _, _) => COMPILE_ERROR
    case BreakpointVerified(_) => BREAKPOINT_VERIFIED
    case ProtocolError => PROTOCOL_ERROR
    case ExceptionBreakpointError(_, _, _, _) => EXCEPTION_BREAKPOINT_ERROR
  }

  /** The body of an event with any reserved word and any stop code in the places for them. */
  function RawBody(reserved: int, stopCode: byte, e: Event): Bytes {
    match e
    case Stopped(t, _, d) => U32Bytes(t) + [stopCode] + CStr(d)
    case ThreadAttached(t, _, d) => U32Bytes(t) + [stopCode] + CStr(d)
    case IOPortOpened(port) => U32Bytes(port)
    case CompileError(m, f, line, lib) => U32Bytes(reserved) + CStr(m) + CStr(f) + U32Bytes(line) + CStr(lib)
    case BreakpointError(id, errors) => U32Bytes(reserved) + U32Bytes(id) + ErrorListsBytes(errors)
    case BreakpointVerified(ids) => U32Bytes(reserved) + Counted(U32Bytes, ids)
    case ProtocolError => []
    case ExceptionBreakpointError(id, errors, line, file) =>
      U32Bytes(reserved) + U32Bytes(id) + ErrorListsBytes(errors) + U32Bytes(line) + CStr(file)
  }

  function StopCodeOf(e: Event): byte {
    match e
    case Stopped(_, r, _) => StopReasonCode(r)
    case ThreadAttached(_, r, _) => StopReasonCode(r)
    case _ => 0
  }

  /** The reserved word is written as zero. */
  function EventBody(e: Event): Bytes { RawBody(0, StopCodeOf(e), e) }

  /** Every number fits its field; thread index, port and exception line are signed. */
  predicate EventFits(e: Event) {
    match e
    case Stopped(t, _, _) => IsI32(t)
    case ThreadAttached(t, _, _) => IsI32(t)
    case IOPortOpened(port) => IsI32(port)
    case CompileError(_, _, line, _) => IsU32(line)
    case BreakpointError(id, errors) => IsU32(id) && ErrorListsFit(errors)
    case BreakpointVerified(ids) => IsU32(|ids|) && forall id :: id in ids ==> IsU32(id)
    case ProtocolError => true
    case ExceptionBreakpointError(id, errors, line, _) => IsU32(id) && ErrorListsFit(errors) && IsI32(line)
  }

  function EventHeader(e: Event): Bytes { U32Bytes(0) + U32Bytes(UpdateType(e)) }

  function EncodeEvent(e: Event): Result<Bytes> {
    if EventFits(e) then Success(EventHeader(e) + EventBody(e)) else Failure(OutOfRange)
  }

  // ---------------------------------------------------------------- decoding

  function DecodeStop(buf: Bytes, offset: nat): Parsed<(int, StopReason, Text)> {
    var (t, o1) :- ReadI32(buf, offset);
    var (code, o2) :- ReadU8(buf, o1);
    var (detail, o3) :- ReadCStr(buf, o2);
    Ok((t, StopReasonOf(code), detail), o3)
  }

  function DecodeCompileError(buf: Bytes, offset: nat): Parsed<Event> {
    var (message, o1) :- ReadCStr(buf, offset + 4);
    var (file, o2) :- ReadCStr(buf, o1);
    var (line, o3) :- ReadU32(buf, o2);
    var (lib, o4) :- ReadCStr(buf, o3);
    Ok(CompileError(message, file, line, lib), o4)
  }

  function DecodeExceptionError(buf: Bytes, offset: nat): Parsed<Event> {
    var (id, o1) :- ReadU32(buf, offset + 4);
    var (errors, o2) :- DecodeErrorLists(buf, o1);
    var (line, o3) :- ReadI32(buf, o2);
    var (file, o4) :- ReadCStr(buf, o3);
    Ok(ExceptionBreakpointError(id, errors, line, file), o4)
  }

  function DecodeEventBody(updateType: int, buf: Bytes, offset: nat): Parsed<Event> {
    if updateType == ALL_THREADS_STOPPED then
      var (s, o) :- DecodeStop(buf, offset);
      Ok(Stopped(s.0, s.1, s.2), o)
    else if updateType == THREAD_ATTACHED then
      var (s, o) :- DecodeStop(buf, offset);
      Ok(ThreadAttached(s.0, s.1, s.2), o)
    else if updateType == IO_PORT_OPENED then
      var (port, o) :- ReadI32(buf, offset);
      Ok(IOPortOpened(port), o)
    else if updateType == COMPILE_ERROR then DecodeCompileError(buf, offset)
    else if updateType == BREAKPOINT_ERROR then
      var (id, o1) :- ReadU32(buf, offset + 4);
      var (errors, o2) :- DecodeErrorLists(buf, o1);
      Ok(BreakpointError(id, errors), o2)
    else if updateType == BREAKPOINT_VERIFIED then
      var (ids, o) :- DecodeCounted(DecodeU32, buf, offset + 4);
      Ok(BreakpointVerified(ids), o)
    else if updateType == PROTOCOL_ERROR then Ok(ProtocolError, offset)
    else if updateType == EXCEPTION_BREAKPOINT_ERROR then DecodeExceptionError(buf, offset)
    else Err(UnknownCode(updateType))
  }

  function DecodeEvent(payload: Bytes): Result<Event> {
    if |payload| < 8 then Failure(TooShort)
    else
      match ReadU32(payload, 4)
      case Err(e) => Failure(e)
      case Ok(updateType, offset) =>
        match DecodeEventBody(updateType, payload, offset)
        case Err(e) => Failure(e)
        case Ok(event, _) => Success(event)
  }

  // ---------------------------------------------------------------- round trip

  /** A stop with any code, in the table or not. */
  lemma StopReads(buf: Bytes, o: nat, t: int, code: byte, d: Text)
    requires IsI32(t) && At(buf, o, U32Bytes(t) + [code] + CStr(d))
    ensures DecodeStop(buf, o) == Ok((t, StopReasonOf(code), d), o + 6 + |d|)
  {
    hide At, U32Bytes, ReadI32, ReadCStr, ReadU8, StopReasonOf;
    At3(buf, o, U32Bytes(t), [code], CStr(d));
    AtI32(buf, o, t);
    assert U8Bytes(code) == [code];
    AtU8(buf, o + 4, code);
    AtCStr(buf, o + 5, d);
  }

  /** In the events below the reserved word may hold anything. */
  lemma CompileErrorReads(buf: Bytes, o: nat, reserved: int, e: Event)
    requires e.CompileError? && EventFits(e)
    requires At(buf, o, U32Bytes(reserved) + CStr(e.message) + CStr(e.file) + U32Bytes(e.line) + CStr(e.libraryName))
    ensures DecodeCompileError(buf, o) == Ok(e, o + |EventBody(e)|)
  {
    hide At, U32Bytes, ReadU32, ReadCStr;
    At5(buf, o, U32Bytes(reserved), CStr(e.message), CStr(e.file), U32Bytes(e.line), CStr(e.libraryName));
    AtCStr(buf, o + 4, e.message);
    AtCStr(buf, o + 4 + |e.message| + 1, e.file);
    var o3 := o + 4 + |e.message| + 1 + |e.file| + 1;
    AtU32(buf, o3, e.line);
    AtCStr(buf, o3 + 4, e.libraryName);
  }

  lemma BreakpointErrorReads(buf: Bytes, o: nat, reserved: int, e: Event)
    requires e.BreakpointError? && EventFits(e)
    requires At(buf, o, U32Bytes(reserved) + U32Bytes(e.breakpointId) + ErrorListsBytes(e.errors))
    ensures DecodeEventBody(BREAKPOINT_ERROR, buf, o) == Ok(e, o + |EventBody(e)|)
  {
    hide At, U32Bytes, ReadU32, ErrorListsBytes, DecodeErrorLists;
    At3(buf, o, U32Bytes(reserved), U32Bytes(e.breakpointId), ErrorListsBytes(e.errors));
    AtU32(buf, o + 4, e.breakpointId);
    ErrorListsRoundTrip(buf, o + 8, e.errors);
  }

  lemma ExceptionErrorReads(buf: Bytes, o: nat, reserved: int, e: Event)
    requires e.ExceptionBreakpointError? && EventFits(e)
    requires At(buf, o, U32Bytes(reserved) + U32Bytes(e.filterId) + ErrorListsBytes(e.errors) + U32Bytes(e.line)
                        + CStr(e.file))
    ensures DecodeExceptionError(buf, o) == Ok(e, o + |EventBody(e)|)
  {
    hide At, U32Bytes, ReadU32, ReadI32, ReadCStr, ErrorListsBytes, DecodeErrorLists;
    At5(buf, o, U32Bytes(reserved), U32Bytes(e.filterId), ErrorListsBytes(e.errors), U32Bytes(e.line), CStr(e.file));
    AtU32(buf, o + 4, e.filterId);
    ErrorListsRoundTrip(buf, o + 8, e.errors);
    var o2 := o + 8 + |ErrorListsBytes(e.errors)|;
    AtI32(buf, o2, e.line);
    AtCStr(buf, o2 + 4, e.file);
  }

  lemma VerifiedReads(buf: Bytes, o: nat, reserved: int, e: Event)
    requires e.BreakpointVerified? && EventFits(e)
    requires At(buf, o, U32Bytes(reserved) + Counted(U32Bytes, e.breakpointIds))
    ensures DecodeEventBody(BREAKPOINT_VERIFIED, buf, o) == Ok(e, o + |EventBody(e)|)
  {
    hide At, Counted, DecodeCounted;
    At2(buf, o, U32Bytes(reserved), Counted(U32Bytes, e.breakpointIds));
    forall id | id in e.breakpointIds ensures ReadsBack(U32Bytes, DecodeU32, Same, buf, id) { U32ReadsBack(buf, id); }
    CountedRoundTrip(U32Bytes, DecodeU32, Same, buf, o + 4, e.breakpointIds);
    SameList(e.breakpointIds);
  }

  /** The same event with the stop reason that a code stands for, if it has one. */
  function WithStop(e: Event, code: int): Event {
    match e
    case Stopped(t, _, d) => Stopped(t, StopReasonOf(code), d)
    case ThreadAttached(t, _, d) => ThreadAttached(t, StopReasonOf(code), d)
    case _ => e
  }

  lemma RawBodyReads(buf: Bytes, o: nat, reserved: int, stopCode: byte, e: Event)
    requires EventFits(e) && At(buf, o, RawBody(reserved, stopCode, e))
    ensures DecodeEventBody(UpdateType(e), buf, o) == Ok(WithStop(e, stopCode), o + |EventBody(e)|)
  {
    hide At, DecodeStop, DecodeCompileError, DecodeExceptionError, StopReasonOf;
    match e
    case Stopped(t, r, d) => StopReads(buf, o, t, stopCode, d);
    case ThreadAttached(t, r, d) => StopReads(buf, o, t, stopCode, d);
    case IOPortOpened(port) => AtI32(buf, o, port);
    case CompileError(_, _, _, _) => CompileErrorReads(buf, o, reserved, e);
    case BreakpointError(_, _) => BreakpointErrorReads(buf, o, reserved, e);
    case BreakpointVerified(_) => VerifiedReads(buf, o, reserved, e);
    case ProtocolError =>
    case ExceptionBreakpointError(_, _, _, _) => ExceptionErrorReads(buf, o, reserved, e);
  }

  /** Whatever the error code, the reserved word and the stop code, and whatever follows: the event is decoded. */
  lemma RawEventReads(error: int, reserved: int, stopCode: byte, e: Event, rest: Bytes)
    requires EventFits(e)
    ensures DecodeEvent(U32Bytes(error) + U32Bytes(UpdateType(e)) + RawBody(reserved, stopCode, e) + rest)
         == Success(WithStop(e, stopCode))
  {
    hide At, ReadU32, DecodeEventBody, RawBody, U32Bytes, EventFits, UpdateType, WithStop;
    var known := U32Bytes(error) + U32Bytes(UpdateType(e)) + RawBody(reserved, stopCode, e);
    var payload := known + rest;
    AtPrefix(known, rest);
    At3(payload, 0, U32Bytes(error), U32Bytes(UpdateType(e)), RawBody(reserved, stopCode, e));
    UpdateTypeFits(e);
    AtU32(payload, 4, UpdateType(e));
    RawBodyReads(payload, 8, reserved, stopCode, e);
  }

  lemma OwnStopCode(e: Event)
    ensures WithStop(e, StopCodeOf(e)) == e
  {
  }

  /** Every event the encoder accepts is decoded to itself; nothing is normalised away. */
  lemma EventRoundTrip(e: Event)
    requires EncodeEvent(e).Success?
    ensures DecodeEvent(EncodeEvent(e).value) == Success(e)
  {
    hide DecodeEvent, RawBody, U32Bytes, EventFits, UpdateType, WithStop, StopCodeOf;
    OwnStopCode(e);
    RawEventReads(0, 0, StopCodeOf(e), e, []);
    assert EncodeEvent(e).value + [] == EncodeEvent(e).value;
  }

  lemma UpdateTypeFits(e: Event)
    ensures IsU32(UpdateType(e))
  {
  }
}

/**
 The debug client: frames are reassembled from the byte stream, responses are matched to requests by id, and
 timeouts, closing and data race each other. Every synchronous stretch of the client is one atomic step.
 */
module Client {
  import opened Seqs
  import opened Wrappers
  import opened Bytes
  import opened Messages
  import opened Frame
  import Requests = WireRequests
  import Responses = WireResponses
  import Events = WireEvents

  datatype Reason =
    | TimedOut
    | SocketClosed
    | DeviceError(code: nat)
    | Undecodable(error: CodecError)
    | Unencodable(error: CodecError)

  datatype Outcome = Resolved(res: Response) | Rejected(reason: Reason)

  /** One promise being settled. */
  datatype Settlement = Settlement(id: nat, outcome: Outcome)

  /** A registered listener and the events on which it throws. */
  datatype Listener = Listener(name: nat, throwsOn: Event -> bool)

  /** A registered close listener and whether it throws when it is called. */
  datatype CloseListener = CloseListener(name: nat, throws: bool)

  datatype Notice = Notice(listener: nat, event: Event)

  datatype SendResult = Promised(id: nat) | RejectedAtOnce | Threw

  /**
   The fields of the client, its armed timers, and four histories: the ids for which `send` returned a promise,
   the settlements of those promises in order, the calls to listeners and the calls to close listeners.
   */
  datatype State = State(
    buf: Bytes, nextReqId: nat, pending: map<nat, ResponseKind>, armed: set<nat>, closed: bool,
    listeners: seq<Listener>, closeListeners: seq<CloseListener>, written: Bytes,
    promised: set<nat>, settled: seq<Settlement>, notices: seq<Notice>, closeNotices: seq<nat>)

  const INITIAL := State([], 1, map[], {}, false, [], [], [], {}, [], [], [])

  function ExpectedKind(req: Request): ResponseKind
    requires !req.Connect?
  {
    match req
    case Pause => PausedKind
    case Continue(_) => ContinuedKind
    case Step(_, _) => SteppedKind
    case Threads => ThreadsKind
    case StackTrace(_) => StackTraceKind
    case Variables(_, _, _, _, _) => VariablesKind
    case Eval(_, _, _) => EvalKind
    case AddBreakpoints(_) => BreakpointsAddedKind
    case AddConditionalBreakpoints(_) => ConditionalBreakpointsAddedKind
    case SetExceptionBreakpoints(_) => ExceptionBreakpointsSetKind
    case RemoveBreakpoints(_) => BreakpointsRemovedKind
    case ListBreakpoints => BreakpointsListKind
    case ExitChannel => ExitedKind
  }

  /** The kind that a request waits for is the kind of the responses that may answer it. */
  lemma ExpectedKindIff(req: Request, res: Response)
    requires !req.Connect?
    ensures res.Kind() == ExpectedKind(req) <==> Answers(req, res)
  {
  }

  // ---------------------------------------------------------------- the steps

  /** The promise of `id` is settled: it is no longer pending and its timer is cleared. */
  function Settle(s: State, id: nat, outcome: Outcome): State {
    s.(pending := s.pending - {id}, armed := s.armed - {id}, settled := s.settled + [Settlement(id, outcome)])
  }

  /** The frame of a request, or the error that encoding it throws. */
  function RequestFrame(req: Request, id: nat): Result<Bytes> {
    match Requests.EncodeRequest(req)
    case Failure(e) => Failure(e)
    case Success(payload) => EncodeFrame(id, payload)
  }

  function SendStep(s: State, req: Request): State {
    if s.closed then s
    else
      var id := s.nextReqId;
      var s1 := s.(nextReqId := id + 1);
      if req.Connect? then s1
      else
        var s2 := s1.(pending := s.pending[id := ExpectedKind(req)], armed := s.armed + {id},
                      promised := s.promised + {id});
        match RequestFrame(req, id)
        case Failure(e) => Settle(s2, id, Rejected(Unencodable(e)))
        case Success(bytes) => s2.(written := s.written + bytes)
  }

  function SendAnswer(s: State, req: Request): SendResult {
    if s.closed then RejectedAtOnce else if req.Connect? then Threw else Promised(s.nextReqId)
  }

  /** The calls made for one event: in registration order, up to and including a listener that throws. */
  function Notify(listeners: seq<Listener>, e: Event): seq<Notice> {
    if listeners == [] then []
    else [Notice(listeners[0].name, e)] + if listeners[0].throwsOn(e) then [] else Notify(listeners[1..], e)
  }

  lemma NotifyStep(listeners: seq<Listener>, i: nat, e: Event, made: seq<Notice>)
    requires i < |listeners|
    ensures made + Notify(listeners[i..], e)
         == made + [Notice(listeners[i].name, e)]
            + if listeners[i].throwsOn(e) then [] else Notify(listeners[i + 1..], e)
  {
    assert listeners[i..][1..] == listeners[i + 1..];
  }

  /** How a response frame for a pending request of this kind settles it. */
  function OutcomeOf(kind: ResponseKind, payload: Bytes): Outcome {
    match Responses.DecodeResponse(kind, payload)
    case Failure(e) => Rejected(Undecodable(e))
    case Success((res, errorCode)) => if errorCode != 0 then Rejected(DeviceError(errorCode)) else Resolved(res)
  }

  function HandleFrame(s: State, f: Frame): State {
    if f.packetType == 0 then
      match Events.DecodeEvent(f.payload)
      case Failure(_) => s
      case Success(e) => s.(notices := s.notices + Notify(s.listeners, e))
    else if f.packetType !in s.pending then s
    else Settle(s, f.packetType, OutcomeOf(s.pending[f.packetType], f.payload))
  }

  /** The receive loop: take frames off the buffer while there is a complete one. */
  function Process(s: State): State
    decreases |s.buf|
  {
    match DecodeFrame(s.buf)
    case None => s
    case Some((f, consumed)) => Process(HandleFrame(s.(buf := s.buf[consumed..]), f))
  }

  function DataStep(s: State, chunk: Bytes): State { Process(s.(buf := s.buf + chunk)) }

  /** Rejects the pending requests with ids from `id` on, oldest first: ids grow, so this is insertion order. */
  function RejectFrom(s: State, id: nat): State
    decreases s.nextReqId - id
  {
    if id >= s.nextReqId then s
    else RejectFrom(if id in s.pending then Settle(s, id, Rejected(SocketClosed)) else s, id + 1)
  }

  function DrainStep(s: State): State { RejectFrom(s, 0) }

  function CloseStep(s: State): State { if s.closed then s else DrainStep(s.(closed := true)) }

  /** The close listeners that are called: in registration order, up to and including one that throws. */
  function NotifyClosed(listeners: seq<CloseListener>): seq<nat> {
    if listeners == [] then []
    else [listeners[0].name] + if listeners[0].throws then [] else NotifyClosed(listeners[1..])
  }

  lemma NotifyClosedStep(listeners: seq<CloseListener>, i: nat)
    requires i < |listeners|
    ensures NotifyClosed(listeners[i..])
         == [listeners[i].name] + if listeners[i].throws then [] else NotifyClosed(listeners[i + 1..])
  {
    assert listeners[i..][1..] == listeners[i + 1..];
  }

  lemma NobodyToNotify()
    ensures NotifyClosed([]) == []
  {
  }

  predicate AllReturn(listeners: seq<CloseListener>) { forall l :: l in listeners ==> !l.throws }

  /** The list of close listeners is cleared only if none throws: an exception leaves the handler before that. */
  function SocketCloseStep(s: State): State {
    DrainStep(s.(closed := true)).(
      closeListeners := if AllReturn(s.closeListeners) then [] else s.closeListeners,
      closeNotices := s.closeNotices + NotifyClosed(s.closeListeners))
  }

  /** A timer can fire only while it is armed. */
  function TimeoutStep(s: State, id: nat): State {
    if id in s.armed then Settle(s, id, Rejected(TimedOut)) else s
  }

  datatype Action =
    | DoSend(req: Request)
    | DoData(chunk: Bytes)
    | DoTimeout(id: nat)
    | DoClose
    | DoSocketClose
    | DoListen(listener: Listener)
    | DoListenClose(closeListener: CloseListener)

  function Next(s: State, a: Action): State {
    match a
    case DoSend(req) => SendStep(s, req)
    case DoData(chunk) => DataStep(s, chunk)
    case DoTimeout(id) => TimeoutStep(s, id)
    case DoClose => CloseStep(s)
    case DoSocketClose => SocketCloseStep(s)
    case DoListen(l) => s.(listeners := s.listeners + [l])
    case DoListenClose(l) => s.(closeListeners := s.closeListeners + [l])
  }

  function Run(s: State, actions: seq<Action>): State
    decreases |actions|
  {
    if actions == [] then s else Run(Next(s, actions[0]), actions[1..])
  }

  // ---------------------------------------------------------------- what each step does

  /** What `send` answers: a rejection from a closed client, an exception for a connect request, else the next id. */
  lemma SendAnswers(s: State, req: Request)
    ensures SendAnswer(s, req) == RejectedAtOnce <==> s.closed
    ensures SendAnswer(s, req) == Threw <==> !s.closed && req.Connect?
    ensures !s.closed && !req.Connect? ==> SendAnswer(s, req) == Promised(s.nextReqId)
    ensures SendStep(s, req).nextReqId == if s.closed then s.nextReqId else s.nextReqId + 1
    ensures SendAnswer(s, req).Promised? || SendStep(s, req) == s.(nextReqId := SendStep(s, req).nextReqId)
  {
  }

  /** A request that fits is written as one frame, under its id, and waits with a timer for a response to it. */
  lemma SendWrites(s: State, req: Request, payload: Bytes, res: Response)
    requires SendAnswer(s, req).Promised?
    requires Requests.EncodeRequest(req) == Success(payload)
    requires s.nextReqId <= 4294967295 && 8 + |payload| <= 4294967295
    ensures var t, id := SendStep(s, req), s.nextReqId;
            && t.written == s.written + (U32Bytes(8 + |payload|) + U32Bytes(id) + payload)
            && t.settled == s.settled && t.pending.Keys == s.pending.Keys + {id} && t.armed == s.armed + {id}
            && (t.pending[id] == res.Kind() <==> Answers(req, res))
            && forall other :: other in s.pending && other != id ==> t.pending[other] == s.pending[other]
  {
    hide U32Bytes, ExpectedKind, Requests.EncodeRequest;
    EncodeFrameIff(s.nextReqId, payload);
    ExpectedKindIff(req, res);
  }

  /** One that does not fit is promised, and its promise rejected at once; nothing is written. */
  lemma SendRejects(s: State, req: Request)
    requires Inv(s) && SendAnswer(s, req).Promised? && RequestFrame(req, s.nextReqId).Failure?
    ensures var t, id := SendStep(s, req), s.nextReqId;
            && t.written == s.written && t.pending == s.pending && t.armed == s.armed
            && t.settled == s.settled + [Settlement(id, Rejected(Unencodable(OutOfRange)))]
  {
    hide Requests.RequestBytes, Requests.RequestFits;
    var id := s.nextReqId;
    assert id !in s.promised;
    assert s.pending[id := ExpectedKind(req)] - {id} == s.pending;
    assert s.armed + {id} - {id} == s.armed;
  }

  /** A timer that is armed rejects its own promise as timed out; any other changes nothing. */
  lemma TimeoutDoes(s: State, id: nat)
    ensures TimeoutStep(s, id)
         == if id in s.armed
            then s.(pending := s.pending - {id}, armed := s.armed - {id},
                    settled := s.settled + [Settlement(id, Rejected(TimedOut))])
            else s
  {
  }

  /** The promises of a set of ids rejected because the socket closed, in the order of their ids. */
  ghost predicate RejectedInOrder(xs: seq<Settlement>, ids: set<nat>) {
    && SettledIds(xs) == ids
    && (forall x :: x in xs ==> x.outcome == Rejected(SocketClosed))
    && forall i, j :: 0 <= i < j < |xs| ==> xs[i].id < xs[j].id
  }

  lemma NothingRejected()
    ensures RejectedInOrder([], {})
  {
  }

  lemma OneMoreRejected(x: Settlement, more: seq<Settlement>, ids: set<nat>)
    requires RejectedInOrder(more, ids) && x.outcome == Rejected(SocketClosed) && forall y :: y in more ==> y.id > x.id
    ensures RejectedInOrder([x] + more, ids + {x.id})
  {
    SettledIdsAppend([x], more);
    assert SettledIds([x]) == {x.id};
  }

  lemma {:induction false} RejectFromDoes(s: State, id: nat) returns (xs: seq<Settlement>)
    requires forall k :: k in s.pending ==> id <= k < s.nextReqId
    ensures RejectFrom(s, id) == s.(pending := map[], armed := s.armed - s.pending.Keys, settled := s.settled + xs)
    ensures RejectedInOrder(xs, s.pending.Keys)
    ensures forall x :: x in xs ==> x.id >= id
    decreases s.nextReqId - id
  {
    hide RejectedInOrder;
    if id >= s.nextReqId {
      xs := [];
      NothingRejected();
      assert s.pending.Keys == {} && s.pending == map[];
      assert s.settled + [] == s.settled && s.armed - {} == s.armed;
    } else if id in s.pending {
      var x := Settlement(id, Rejected(SocketClosed));
      var t := Settle(s, id, Rejected(SocketClosed));
      var more := RejectFromDoes(t, id + 1);
      xs := [x] + more;
      assert s.settled + [x] + more == s.settled + xs;
      assert s.armed - {id} - t.pending.Keys == s.armed - s.pending.Keys;
      OneMoreRejected(x, more, t.pending.Keys);
      assert s.pending.Keys == t.pending.Keys + {id};
    } else {
      xs := RejectFromDoes(s, id + 1);
    }
  }

  /** Closing rejects every pending promise, in the order of ids, and nothing else; a second time, nothing at all. */
  lemma CloseDoes(s: State) returns (xs: seq<Settlement>)
    requires Inv(s)
    ensures RejectedInOrder(xs, s.pending.Keys)
    ensures CloseStep(s) == s.(closed := true, pending := map[], armed := {}, settled := s.settled + xs)
    ensures s.closed ==> CloseStep(s) == s
  {
    assert s.pending.Keys <= s.promised;
    xs := RejectFromDoes(s.(closed := true), 0);
    if s.closed { NoneRejected(xs); }
    assert s.settled + [] == s.settled;
    assert s.armed - s.pending.Keys == {};
  }

  lemma NoneRejected(xs: seq<Settlement>)
    ensures SettledIds(xs) == {} ==> xs == []
  {
    if xs != [] { assert xs[0].id in SettledIds(xs); }
  }

  /**
   When the socket closes, every pending promise is rejected in the order of ids, and the close listeners are called up
   to the first that throws; if none throws they are forgotten.
   */
  lemma SocketCloseDoes(s: State) returns (xs: seq<Settlement>)
    requires Inv(s)
    ensures RejectedInOrder(xs, s.pending.Keys)
    ensures SocketCloseStep(s)
         == s.(closed := true, pending := map[], armed := {}, settled := s.settled + xs,
               closeNotices := s.closeNotices + NotifyClosed(s.closeListeners),
               closeListeners := SocketCloseStep(s).closeListeners)
    ensures if exists l :: l in s.closeListeners && l.throws then SocketCloseStep(s).closeListeners == s.closeListeners
            else SocketCloseStep(s).closeListeners == []
  {
    assert s.pending.Keys <= s.promised;
    xs := RejectFromDoes(s.(closed := true), 0);
    assert s.armed - s.pending.Keys == {};
  }

  /** How many requests are sent before the client is closed. */
  function OpenSends(s: State, actions: seq<Action>): nat
    decreases |actions|
  {
    if actions == [] then 0
    else (if actions[0].DoSend? && !s.closed then 1 else 0) + OpenSends(Next(s, actions[0]), actions[1..])
  }

  /** Ids are given out one after the other, whatever happens in between. */
  lemma {:induction false} IdsCountSends(s: State, actions: seq<Action>)
    ensures Run(s, actions).nextReqId == s.nextReqId + OpenSends(s, actions)
    decreases |actions|
  {
    hide Next;
    if actions != [] {
      NextCountsSend(s, actions[0]);
      IdsCountSends(Next(s, actions[0]), actions[1..]);
    }
  }

  lemma NextCountsSend(s: State, a: Action)
    ensures Next(s, a).nextReqId == s.nextReqId + if a.DoSend? && !s.closed then 1 else 0
  {
    match a
    case DoData(chunk) => ProcessExtends(s.(buf := s.buf + chunk));
    case DoClose => RejectFromExtends(s.(closed := true), 0);
    case DoSocketClose => RejectFromExtends(s.(closed := true), 0);
    case _ =>
  }

  /** The first id is 1, so the next one is always one more than the number of requests so far. */
  lemma NextIdIs(actions: seq<Action>)
    ensures Run(INITIAL, actions).nextReqId == 1 + OpenSends(INITIAL, actions)
  {
    IdsCountSends(INITIAL, actions);
  }

  /** The listeners registered in a run, in order. */
  function Registered(actions: seq<Action>): seq<Listener> {
    if actions == [] then []
    else (if actions[0].DoListen? then [actions[0].listener] else []) + Registered(actions[1..])
  }

  /** Listeners are kept in the order of registration, and none is ever removed. */
  lemma {:induction false} ListenersInOrder(s: State, actions: seq<Action>)
    ensures Run(s, actions).listeners == s.listeners + Registered(actions)
    decreases |actions|
  {
    hide Next;
    if actions == [] {
      assert s.listeners + [] == s.listeners;
    } else {
      var t, more := Next(s, actions[0]), Registered(actions[1..]);
      NextKeepsListeners(s, actions[0]);
      ListenersInOrder(t, actions[1..]);
      var first := if actions[0].DoListen? then [actions[0].listener] else [];
      assert s.listeners + first + more == s.listeners + (first + more);
    }
  }

  lemma NextKeepsListeners(s: State, a: Action)
    ensures Next(s, a).listeners == s.listeners + if a.DoListen? then [a.listener] else []
  {
    match a
    case DoData(chunk) => ProcessKeepsListeners(s.(buf := s.buf + chunk));
    case DoClose => RejectFromExtends(s.(closed := true), 0);
    case DoSocketClose => RejectFromExtends(s.(closed := true), 0);
    case _ =>
  }

  // ---------------------------------------------------------------- exactly-once settlement

  function SettledIds(settled: seq<Settlement>): set<nat> { set x | x in settled :: x.id }

  ghost predicate SettledOnce(settled: seq<Settlement>) {
    forall i, j :: 0 <= i < j < |settled| ==> settled[i].id != settled[j].id
  }

  /**
   Every promised id is pending or settled and never both, no promise is settled twice, exactly the pending
   requests have an armed timer, and a closed client has nothing pending.
   */
  ghost predicate Inv(s: State) {
    && s.armed == s.pending.Keys
    && s.promised == s.pending.Keys + SettledIds(s.settled)
    && s.pending.Keys !! SettledIds(s.settled)
    && SettledOnce(s.settled)
    && (s.closed ==> s.pending == map[])
    && (forall id :: id in s.promised ==> 1 <= id < s.nextReqId)
    && s.nextReqId >= 1
  }

  lemma SettleKeepsInv(s: State, id: nat, outcome: Outcome)
    requires Inv(s) && id in s.pending
    ensures Inv(Settle(s, id, outcome))
  {
    var s' := Settle(s, id, outcome);
    SettledIdsAppend(s.settled, [Settlement(id, outcome)]);
    assert SettledIds([Settlement(id, outcome)]) == {id};
    assert forall i :: 0 <= i < |s.settled| ==> s.settled[i].id in SettledIds(s.settled);
  }

  lemma SendKeepsInv(s: State, req: Request)
    requires Inv(s)
    ensures Inv(SendStep(s, req))
  {
    if !s.closed && !req.Connect? {
      var id := s.nextReqId;
      var s2 := s.(nextReqId := id + 1, pending := s.pending[id := ExpectedKind(req)], armed := s.armed + {id},
                   promised := s.promised + {id});
      assert id !in s.promised;
      assert Inv(s2);
      match RequestFrame(req, id)
      case Failure(e) => SettleKeepsInv(s2, id, Rejected(Unencodable(e)));
      case Success(_) =>
    }
  }

  lemma SendPromisesFreshId(s: State, req: Request)
    requires Inv(s)
    ensures match SendAnswer(s, req)
            case Promised(id) => id !in s.promised && SendStep(s, req).promised == s.promised + {id}
            case _ => SendStep(s, req).promised == s.promised
  {
  }

  lemma HandleFrameKeepsInv(s: State, f: Frame)
    requires Inv(s)
    ensures Inv(HandleFrame(s, f))
  {
    if f.packetType != 0 && f.packetType in s.pending {
      SettleKeepsInv(s, f.packetType, OutcomeOf(s.pending[f.packetType], f.payload));
    }
  }

  lemma {:induction false} ProcessKeepsInv(s: State)
    requires Inv(s)
    ensures Inv(Process(s))
    decreases |s.buf|
  {
    match DecodeFrame(s.buf)
    case None =>
    case Some((f, consumed)) =>
      var s1 := s.(buf := s.buf[consumed..]);
      HandleFrameKeepsInv(s1, f);
      ProcessKeepsInv(HandleFrame(s1, f));
  }

  /** Draining settles each pending request once and leaves none. */
  lemma {:induction false} RejectFromKeepsInv(s: State, id: nat)
    requires Inv(s.(closed := false)) && (forall k :: k in s.pending ==> k >= id)
    ensures Inv(RejectFrom(s, id)) && RejectFrom(s, id).closed == s.closed
    decreases s.nextReqId - id
  {
    if id < s.nextReqId {
      var s' := if id in s.pending then Settle(s, id, Rejected(SocketClosed)) else s;
      if id in s.pending {
        SettleKeepsInv(s.(closed := false), id, Rejected(SocketClosed));
        assert s'.(closed := false) == Settle(s.(closed := false), id, Rejected(SocketClosed));
      }
      RejectFromKeepsInv(s', id + 1);
    } else {
      assert s.pending.Keys <= s.promised;
      assert s.pending.Keys == {};
    }
  }

  lemma SettledIdsAppend(xs: seq<Settlement>, ys: seq<Settlement>)
    ensures SettledIds(xs + ys) == SettledIds(xs) + SettledIds(ys)
  {
    assert forall x :: x in xs + ys <==> x in xs || x in ys;
  }

  lemma NextKeepsInv(s: State, a: Action)
    requires Inv(s)
    ensures Inv(Next(s, a))
  {
    match a
    case DoSend(req) => SendKeepsInv(s, req);
    case DoData(chunk) => ProcessKeepsInv(s.(buf := s.buf + chunk));
    case DoTimeout(id) => if id in s.armed { SettleKeepsInv(s, id, Rejected(TimedOut)); }
    case DoClose => if !s.closed { RejectFromKeepsInv(s.(closed := true), 0); }
    case DoSocketClose => RejectFromKeepsInv(s.(closed := true), 0);
    case _ =>
  }

  lemma {:induction false} RunKeepsInv(s: State, actions: seq<Action>)
    requires Inv(s)
    ensures Inv(Run(s, actions))
    decreases |actions|
  {
    if actions != [] {
      NextKeepsInv(s, actions[0]);
      RunKeepsInv(Next(s, actions[0]), actions[1..]);
    }
  }

  /** Exactly-once settlement over every interleaving of sends, data, timeouts, closes and socket closes. */
  lemma SettledExactlyOnce(actions: seq<Action>)
    ensures Inv(Run(INITIAL, actions))
  {
    RunKeepsInv(INITIAL, actions);
  }

  // ---------------------------------------------------------------- settlements are final

  /** What later steps leave of earlier ones: settlements and calls stay, ids grow, a closed client stays closed. */
  ghost predicate Extends(s: State, s': State) {
    && s.settled <= s'.settled
    && s.notices <= s'.notices
    && s.closeNotices <= s'.closeNotices
    && s.written <= s'.written
    && s.promised <= s'.promised
    && s.nextReqId <= s'.nextReqId
    && (s.closed ==> s'.closed)
  }

  lemma {:induction false} ProcessExtends(s: State)
    ensures Extends(s, Process(s))
    ensures Process(s).promised == s.promised && Process(s).closed == s.closed && Process(s).written == s.written
    ensures Process(s).nextReqId == s.nextReqId
    decreases |s.buf|
  {
    match DecodeFrame(s.buf)
    case None =>
    case Some((f, consumed)) => ProcessExtends(HandleFrame(s.(buf := s.buf[consumed..]), f));
  }

  lemma {:induction false} ProcessKeepsListeners(s: State)
    ensures Process(s).listeners == s.listeners
    decreases |s.buf|
  {
    match DecodeFrame(s.buf)
    case None =>
    case Some((f, consumed)) => ProcessKeepsListeners(HandleFrame(s.(buf := s.buf[consumed..]), f));
  }

  lemma {:induction false} RejectFromExtends(s: State, id: nat)
    ensures var t := RejectFrom(s, id);
            && s.settled <= t.settled && t.promised == s.promised
            && t == s.(pending := t.pending, armed := t.armed, settled := t.settled)
    decreases s.nextReqId - id
  {
    if id < s.nextReqId {
      RejectFromExtends(if id in s.pending then Settle(s, id, Rejected(SocketClosed)) else s, id + 1);
    }
  }

  lemma NextExtends(s: State, a: Action)
    ensures Extends(s, Next(s, a))
  {
    match a
    case DoData(chunk) => ProcessExtends(s.(buf := s.buf + chunk));
    case DoClose => RejectFromExtends(s.(closed := true), 0);
    case DoSocketClose => RejectFromExtends(s.(closed := true), 0);
    case _ =>
  }

  /** No step of any run takes back or changes a settlement, a notification or a byte that was written. */
  lemma {:induction false} RunExtends(s: State, actions: seq<Action>)
    ensures Extends(s, Run(s, actions))
    decreases |actions|
  {
    if actions != [] {
      NextExtends(s, actions[0]);
      RunExtends(Next(s, actions[0]), actions[1..]);
    }
  }

  /** After it is closed a client promises nothing more and writes nothing more. */
  lemma {:induction false} ClosedClientIsInert(s: State, actions: seq<Action>)
    requires s.closed
    ensures Run(s, actions).promised == s.promised && Run(s, actions).written == s.written
    decreases |actions|
  {
    if actions != [] {
      NextExtends(s, actions[0]);
      if actions[0].DoData? { ProcessExtends(s.(buf := s.buf + actions[0].chunk)); }
      RejectFromExtends(s.(closed := true), 0);
      ClosedClientIsInert(Next(s, actions[0]), actions[1..]);
    }
  }

  /** A frame resolves a promise exactly when the id is pending, the body decodes and the error code is zero. */
  lemma ResolvesIff(s: State, f: Frame, res: Response)
    ensures HandleFrame(s, f).settled == s.settled + [Settlement(f.packetType, Resolved(res))]
       <==> && f.packetType != 0 && f.packetType in s.pending
            && Responses.DecodeResponse(s.pending[f.packetType], f.payload) == Success((res, 0))
  {
    if f.packetType != 0 && f.packetType in s.pending {
      var x := Settlement(f.packetType, OutcomeOf(s.pending[f.packetType], f.payload));
      assert (s.settled + [x])[|s.settled|] == x;
    }
    assert |s.settled + [Settlement(0, Resolved(res))]| == |s.settled| + 1;
  }

  /** A frame rejects a promise exactly if its id is pending and its body is undecodable, or its code is not zero. */
  lemma RejectsIff(s: State, f: Frame, reason: Reason)
    ensures HandleFrame(s, f).settled == s.settled + [Settlement(f.packetType, Rejected(reason))]
       <==> && f.packetType != 0 && f.packetType in s.pending
            && match Responses.DecodeResponse(s.pending[f.packetType], f.payload)
               case Failure(e) => reason == Undecodable(e)
               case Success((_, code)) => code != 0 && reason == DeviceError(code)
  {
    hide Responses.DecodeResponse;
    if f.packetType != 0 && f.packetType in s.pending {
      var x := Settlement(f.packetType, OutcomeOf(s.pending[f.packetType], f.payload));
      assert (s.settled + [x])[|s.settled|] == x;
    }
    assert |s.settled + [Settlement(0, Rejected(reason))]| == |s.settled| + 1;
  }

  /** A frame is ignored exactly if its id is not pending, or it is an event that nobody hears or cannot be decoded. */
  lemma IgnoredIff(s: State, f: Frame)
    ensures HandleFrame(s, f) == s
       <==> if f.packetType == 0 then s.listeners == [] || Events.DecodeEvent(f.payload).Failure?
            else f.packetType !in s.pending
  {
    hide Events.DecodeEvent, Responses.DecodeResponse;
    if f.packetType != 0 && f.packetType in s.pending {
      assert f.packetType !in HandleFrame(s, f).pending;
    }
    if f.packetType == 0 && s.listeners != [] && Events.DecodeEvent(f.payload).Success? {
      var e := Events.DecodeEvent(f.payload).value;
      assert |s.notices + Notify(s.listeners, e)| > |s.notices|;
    }
    assert s.notices + [] == s.notices;
  }

  /** A response whose error code is not zero never resolves a promise. */
  lemma ErrorCodeNeverResolves(kind: ResponseKind, payload: Bytes)
    requires |payload| >= 4 && FromLE(payload[..4]) != 0
    ensures OutcomeOf(kind, payload).Rejected?
  {
  }

  // ---------------------------------------------------------------- chunks do not matter

  function HandleAll(s: State, fs: seq<Frame>): State
    decreases |fs|
  {
    if fs == [] then s else HandleAll(HandleFrame(s, fs[0]), fs[1..])
  }

  lemma HandleFrameKeepsBuf(s: State, f: Frame, buf: Bytes)
    ensures HandleFrame(s.(buf := buf), f) == HandleFrame(s, f).(buf := buf)
    ensures HandleFrame(s, f).buf == s.buf
  {
  }

  /** The receive loop handles exactly the frames that draining the buffer yields, in order. */
  lemma {:induction false} ProcessIsHandleAll(s: State)
    ensures Process(s) == HandleAll(s.(buf := Drain(s.buf).1), Drain(s.buf).0)
    decreases |s.buf|
  {
    match DecodeFrame(s.buf)
    case None =>
    case Some((f, consumed)) =>
      var s1 := s.(buf := s.buf[consumed..]);
      var (fs, rest) := Drain(s1.buf);
      HandleFrameKeepsBuf(s1, f, rest);
      ProcessIsHandleAll(HandleFrame(s1, f));
      assert ([f] + fs)[1..] == fs;
  }

  lemma {:induction false} HandleAllAppend(s: State, fs: seq<Frame>, gs: seq<Frame>)
    ensures HandleAll(s, fs + gs) == HandleAll(HandleAll(s, fs), gs)
    decreases |fs|
  {
    if fs == [] {
      assert [] + gs == gs;
    } else {
      assert (fs + gs)[1..] == fs[1..] + gs;
      HandleAllAppend(HandleFrame(s, fs[0]), fs[1..], gs);
    }
  }

  lemma {:induction false} HandleAllKeepsBuf(s: State, fs: seq<Frame>, buf: Bytes)
    ensures HandleAll(s.(buf := buf), fs) == HandleAll(s, fs).(buf := buf)
    ensures HandleAll(s, fs).buf == s.buf
    decreases |fs|
  {
    if fs != [] {
      HandleFrameKeepsBuf(s, fs[0], buf);
      HandleAllKeepsBuf(HandleFrame(s, fs[0]), fs[1..], buf);
    }
  }

  /** Two chunks have the effect of one. */
  lemma TwoChunksAreOne(s: State, a: Bytes, b: Bytes)
    ensures DataStep(DataStep(s, a), b) == DataStep(s, a + b)
  {
    hide Process, Drain, HandleAll;
    var (fs, rest) := Drain(s.buf + a);
    var (gs, rest') := Drain(rest + b);
    ProcessIsHandleAll(s.(buf := s.buf + a));
    var s1 := HandleAll(s.(buf := rest), fs);
    HandleAllKeepsBuf(s.(buf := rest), fs, rest');
    assert DataStep(s, a) == s1 && s1.buf == rest;
    ProcessIsHandleAll(s1.(buf := rest + b));
    assert DataStep(s1, b) == HandleAll(s1.(buf := rest'), gs);
    DrainAppend(s.buf + a, b);
    assert s.buf + a + b == s.buf + (a + b);
    ProcessIsHandleAll(s.(buf := s.buf + (a + b)));
    HandleAllAppend(s.(buf := rest'), fs, gs);
  }

  function DataSteps(s: State, chunks: seq<Bytes>): State
    decreases |chunks|
  {
    if chunks == [] then s else DataSteps(DataStep(s, chunks[0]), chunks[1..])
  }

  /** The whole state of the client, not only its frames, is independent of how the stream is cut into chunks. */
  lemma {:induction false} ClientChunkingIrrelevant(s: State, chunks: seq<Bytes>)
    requires DecodeFrame(s.buf) == None
    ensures DataSteps(s, chunks) == DataStep(s, Concat(chunks))
    decreases |chunks|
  {
    if chunks == [] {
      assert s.buf + [] == s.buf;
    } else {
      ProcessLeavesNone(s.(buf := s.buf + chunks[0]));
      ClientChunkingIrrelevant(DataStep(s, chunks[0]), chunks[1..]);
      TwoChunksAreOne(s, chunks[0], Concat(chunks[1..]));
    }
  }

  /** A client whose buffer announces a frame that is too short only collects bytes from then on. */
  lemma StuckClientHearsNothing(s: State, chunks: seq<Bytes>)
    requires Stuck(s.buf)
    ensures DataSteps(s, chunks) == s.(buf := s.buf + Concat(chunks))
  {
    assert s.buf + [] == s.buf;
    ShortLengthBlocks(s.buf, []);
    ShortLengthBlocks(s.buf, Concat(chunks));
    ClientChunkingIrrelevant(s, chunks);
  }

  lemma ProcessLeavesNone(s: State)
    ensures DecodeFrame(Process(s).buf) == None
  {
    ProcessIsHandleAll(s);
    var (fs, rest) := Drain(s.buf);
    HandleAllKeepsBuf(s.(buf := rest), fs, rest);
    DrainLeavesNone(s.buf);
  }

  // ---------------------------------------------------------------- listeners

  /** One notice for every listener, in registration order. */
  function NoticesOfAll(listeners: seq<Listener>, e: Event): (notices: seq<Notice>)
    ensures |notices| == |listeners|
    ensures forall i :: 0 <= i < |listeners| ==> notices[i] == Notice(listeners[i].name, e)
  {
    seq(|listeners|, i requires 0 <= i < |listeners| => Notice(listeners[i].name, e))
  }

  /** No listener but the last throws on the event. */
  ghost predicate OnlyLastThrows(listeners: seq<Listener>, e: Event) {
    forall i :: 0 <= i < |listeners| - 1 ==> !listeners[i].throwsOn(e)
  }

  lemma {:induction false} NotifyIsPrefix(listeners: seq<Listener>, e: Event)
    ensures Notify(listeners, e) <= NoticesOfAll(listeners, e)
  {
    if listeners != [] {
      NotifyIsPrefix(listeners[1..], e);
      assert NoticesOfAll(listeners, e)[1..] == NoticesOfAll(listeners[1..], e);
    }
  }

  /** Every listener is called once for the event, in registration order, exactly if no listener but the last throws. */
  lemma {:induction false} EveryListenerNotifiedIff(listeners: seq<Listener>, e: Event)
    ensures Notify(listeners, e) == NoticesOfAll(listeners, e) <==> OnlyLastThrows(listeners, e)
  {
    if |listeners| > 1 {
      var tail := listeners[1..];
      EveryListenerNotifiedIff(tail, e);
      NotifyIsPrefix(tail, e);
      assert NoticesOfAll(listeners, e)[1..] == NoticesOfAll(tail, e);
      if listeners[0].throwsOn(e) {
        assert !OnlyLastThrows(listeners, e) && |Notify(listeners, e)| == 1;
      } else {
        assert Notify(listeners, e)[1..] == Notify(tail, e);
        assert forall i :: 0 <= i < |tail| ==> tail[i] == listeners[i + 1];
        assert OnlyLastThrows(listeners, e) ==> OnlyLastThrows(tail, e);
        assert forall i :: 1 <= i < |listeners| - 1 ==> listeners[i] == tail[i - 1];
      }
    }
  }

  /** Of two listeners, the second is not called for an event on which the first throws. */
  lemma SecondListenerMissesEvent(e: Event)
    ensures var first, second := Listener(1, _ => true), Listener(2, _ => false);
            Notify([first, second], e) == [Notice(1, e)] != NoticesOfAll([first, second], e)
  {
  }

  /** Every close listener is called exactly if none but the last throws. */
  lemma {:induction false} EveryCloseListenerNotifiedIff(listeners: seq<CloseListener>)
    ensures |NotifyClosed(listeners)| <= |listeners|
    ensures forall i :: 0 <= i < |NotifyClosed(listeners)| ==> NotifyClosed(listeners)[i] == listeners[i].name
    ensures |NotifyClosed(listeners)| == |listeners| <==> forall i :: 0 <= i < |listeners| - 1 ==> !listeners[i].throws
  {
    if listeners != [] {
      var tail := listeners[1..];
      EveryCloseListenerNotifiedIff(tail);
      assert forall i :: 0 <= i < |tail| ==> tail[i] == listeners[i + 1];
      if !listeners[0].throws {
        assert NotifyClosed(listeners) == [listeners[0].name] + NotifyClosed(tail);
        assert forall i :: 1 <= i < |listeners| - 1 ==> listeners[i] == tail[i - 1];
      }
    }
  }

  /** Whatever listeners throw, promises are settled as if there were none. */
  lemma {:induction false} ListenersDoNotAffectSettlement(s: State, fs: seq<Frame>, others: seq<Listener>)
    ensures var t := HandleAll(s.(listeners := others), fs);
            t.settled == HandleAll(s, fs).settled && t.pending == HandleAll(s, fs).pending
    decreases |fs|
  {
    SettlementIgnoresNotices(s, s.(listeners := others), fs);
  }

  lemma {:induction false} SettlementIgnoresNotices(s: State, t: State, fs: seq<Frame>)
    requires s.settled == t.settled && s.pending == t.pending
    ensures HandleAll(s, fs).settled == HandleAll(t, fs).settled && HandleAll(s, fs).pending == HandleAll(t, fs).pending
    decreases |fs|
  {
    if fs != [] { SettlementIgnoresNotices(HandleFrame(s, fs[0]), HandleFrame(t, fs[0]), fs[1..]); }
  }

  // ---------------------------------------------------------------- the client itself

  class BdpClient {
    var buf: Bytes
    var nextReqId: nat
    var pending: map<nat, ResponseKind>
    var armed: set<nat>
    var closed: bool
    var listeners: seq<Listener>
    var closeListeners: seq<CloseListener>
    var written: Bytes
    ghost var promised: set<nat>
    ghost var settled: seq<Settlement>
    ghost var notices: seq<Notice>
    ghost var closeNotices: seq<nat>

    ghost function View(): State
      reads this
    {
      State(buf, nextReqId, pending, armed, closed, listeners, closeListeners, written,
            promised, settled, notices, closeNotices)
    }

    ghost predicate Valid()
      reads this
    {
      Inv(View())
    }

    constructor ()
      ensures Valid() && View() == INITIAL
    {
      buf, nextReqId, pending, armed, closed := [], 1, map[], {}, false;
      listeners, closeListeners, written := [], [], [];
      promised, settled, notices, closeNotices := {}, [], [], [];
    }

    method SettlePromise(id: nat, outcome: Outcome)
      modifies this
      ensures View() == Settle(old(View()), id, outcome)
    {
      armed := armed - {id};
      pending := pending - {id};
      settled := settled + [Settlement(id, outcome)];
    }

    method Send(req: Request) returns (r: SendResult)
      requires Valid()
      modifies this
      ensures Valid() && View() == SendStep(old(View()), req) && r == SendAnswer(old(View()), req)
    {
      hide RequestFrame, ExpectedKind, Inv;
      SendKeepsInv(View(), req);
      if closed { return RejectedAtOnce; }
      var id := nextReqId;
      nextReqId := nextReqId + 1;
      if req.Connect? { return Threw; }
      promised := promised + {id};
      armed := armed + {id};
      pending := pending[id := ExpectedKind(req)];
      match RequestFrame(req, id) {
        case Success(bytes) => written := written + bytes;
        case Failure(e) => SettlePromise(id, Rejected(Unencodable(e)));
      }
      return Promised(id);
    }

    method OnData(chunk: Bytes)
      requires Valid()
      modifies this
      ensures Valid() && View() == DataStep(old(View()), chunk)
      ensures DecodeFrame(buf) == None
    {
      ProcessKeepsInv(View().(buf := buf + chunk));
      hide Inv, OutcomeOf, Settle;
      buf := buf + chunk;
      var decoded := DecodeFrame(buf);
      while decoded.Some?
        invariant decoded == DecodeFrame(buf)
        invariant Process(View()) == DataStep(old(View()), chunk)
        decreases |buf|
      {
        var (f, consumed) := decoded.value;
        buf := buf[consumed..];
        if f.packetType == 0 {
          match Events.DecodeEvent(f.payload)
          case Failure(_) =>
          case Success(e) => Dispatch(e);
        } else if f.packetType in pending {
          SettlePromise(f.packetType, OutcomeOf(pending[f.packetType], f.payload));
        }
        decoded := DecodeFrame(buf);
      }
    }

    /** Calls the listeners one after the other; an exception ends the loop and is swallowed. */
    method Dispatch(e: Event)
      modifies this`notices
      ensures notices == old(notices) + Notify(listeners, e)
    {
      hide Inv;
      var i := 0;
      ghost var before := notices;
      while i < |listeners|
        invariant 0 <= i <= |listeners|
        invariant notices + Notify(listeners[i..], e) == before + Notify(listeners, e)
      {
        NotifyStep(listeners, i, e, notices);
        notices := notices + [Notice(listeners[i].name, e)];
        if listeners[i].throwsOn(e) { return; }
        i := i + 1;
      }
    }

    method DrainPending()
      modifies this
      ensures View() == DrainStep(old(View()))
    {
      var id := 0;
      while id < nextReqId
        invariant RejectFrom(View(), id) == DrainStep(old(View()))
        decreases nextReqId - id
      {
        if id in pending { SettlePromise(id, Rejected(SocketClosed)); }
        id := id + 1;
      }
    }

    method Close()
      requires Valid()
      modifies this
      ensures Valid() && View() == CloseStep(old(View()))
    {
      if !closed {
        RejectFromKeepsInv(View().(closed := true), 0);
        closed := true;
        DrainPending();
      }
    }

    method HandleSocketClose()
      requires Valid()
      modifies this
      ensures Valid() && View() == SocketCloseStep(old(View()))
    {
      RejectFromKeepsInv(View().(closed := true), 0);
      RejectFromExtends(View().(closed := true), 0);
      closed := true;
      DrainPending();
      NotifyCloseListeners();
    }

    /** Calls the close listeners one after the other; an exception leaves the list as it is. */
    method NotifyCloseListeners()
      modifies this`closeListeners, this`closeNotices
      ensures closeNotices == old(closeNotices) + NotifyClosed(old(closeListeners))
      ensures closeListeners == if AllReturn(old(closeListeners)) then [] else old(closeListeners)
    {
      hide NotifyClosed;
      var i := 0;
      NobodyToNotify();
      assert closeListeners[0..] == closeListeners;
      while i < |closeListeners|
        invariant 0 <= i <= |closeListeners| && closeListeners == old(closeListeners)
        invariant forall j :: 0 <= j < i ==> !closeListeners[j].throws
        invariant closeNotices + NotifyClosed(closeListeners[i..]) == old(closeNotices) + NotifyClosed(closeListeners)
      {
        NotifyClosedStep(closeListeners, i);
        closeNotices := closeNotices + [closeListeners[i].name];
        if closeListeners[i].throws { return; }
        i := i + 1;
      }
      assert closeListeners[i..] == [];
      closeListeners := [];
    }

    /** The timer of a pending request fires. */
    method OnTimeout(id: nat)
      requires Valid() && id in armed
      modifies this
      ensures Valid() && View() == TimeoutStep(old(View()), id)
    {
      SettleKeepsInv(View(), id, Rejected(TimedOut));
      SettlePromise(id, Rejected(TimedOut));
    }

    method OnEvent(l: Listener)
      modifies this`listeners
      ensures View() == Next(old(View()), DoListen(l))
    {
      listeners := listeners + [l];
    }

    method OnClose(l: CloseListener)
      modifies this`closeListeners
      ensures View() == Next(old(View()), DoListenClose(l))
    {
      closeListeners := closeListeners + [l];
    }
  }
}

/**
 Client and device joined by two byte streams. The client sends, times out and closes; the network delivers any
 number of bytes at a time; the device takes request frames one by one, answers the requests it has heard in any
 order and pushes events in between. Every sequence of these actions is a run.
 */
module EndToEnd {
  import opened Wrappers
  import opened Seqs
  import opened Bytes
  import opened Messages
  import opened Frame
  import opened Client
  import Requests = WireRequests
  import Responses = WireResponses
  import Events = WireEvents

  /** What the device writes: the answer to one request, or an event. */
  datatype Emission = Answer(id: nat, res: Response, errorCode: nat) | Push(event: Event)

  datatype Reply = Reply(res: Response, errorCode: nat)

  /**
   `toDevice` and `toClient` are bytes in flight and `deviceBuf` the bytes the device has not consumed yet. The
   other fields are histories: the requests written (by id) and those of them the device has not taken yet, the
   requests as the device decoded them, its replies, the emissions the client has not completely received yet, all
   events pushed and those received, and whether a timeout or a close has occurred.
   */
  datatype System = System(
    client: State, toDevice: Bytes, deviceBuf: Bytes, toClient: Bytes,
    requests: map<nat, Request>, outgoing: seq<(nat, Request)>, heard: map<nat, Request>,
    replies: map<nat, Reply>, incoming: seq<Emission>, pushed: seq<Event>, seen: seq<Event>, disturbed: bool)

  function Start(listeners: seq<Listener>): System {
    System(INITIAL.(listeners := listeners), [], [], [], map[], [], map[], map[], [], [], [], false)
  }

  // ---------------------------------------------------------------- frames of messages

  function PayloadOf(r: Result<Bytes>): Bytes { if r.Success? then r.value else [] }

  function RequestFrameOf(p: (nat, Request)): Frame { Frame(p.0, PayloadOf(Requests.EncodeRequest(p.1))) }

  function EmissionFrame(m: Emission): Frame {
    match m
    case Answer(id, res, errorCode) => Frame(id, PayloadOf(Responses.EncodeResponse(res, errorCode)))
    case Push(e) => Frame(0, PayloadOf(Events.EncodeEvent(e)))
  }

  predicate Sendable(m: Emission) {
    && FrameFits(EmissionFrame(m))
    && match m
       case Answer(id, res, errorCode) => id != 0 && Responses.EncodeResponse(res, errorCode).Success?
       case Push(e) => Events.EncodeEvent(e).Success?
  }

  // ---------------------------------------------------------------- actions

  datatype Move =
    | ClientSends(req: Request)
    | BytesReachDevice(n: nat)
    | DeviceTakesFrame
    | DeviceEmits(m: Emission)
    | BytesReachClient(n: nat)
    | TimerFires(id: nat)
    | ClientCloses
    | SocketCloses

  function Sends(s: System, req: Request): System {
    var id, client := s.client.nextReqId, SendStep(s.client, req);
    var bytes := if |s.client.written| <= |client.written| then client.written[|s.client.written|..] else [];
    if s.client.closed || req.Connect? || RequestFrame(req, id).Failure? then s.(client := client)
    else s.(client := client, toDevice := s.toDevice + bytes, requests := s.requests[id := req],
            outgoing := s.outgoing + [(id, req)])
  }

  function TakesFrame(s: System): System {
    match DecodeFrame(s.deviceBuf)
    case None => s
    case Some((f, consumed)) =>
      var s1 := s.(deviceBuf := s.deviceBuf[consumed..], outgoing := if s.outgoing == [] then [] else s.outgoing[1..]);
      match Requests.DecodeRequest(f.payload)
      case Failure(_) => s1
      case Success(req) => s1.(heard := s1.heard[f.packetType := req])
  }

  /** The device answers a request it has heard, once, with a response that may answer it. */
  predicate MayEmit(s: System, m: Emission) {
    && Sendable(m)
    && (m.Answer? ==>
         && m.id in s.heard && m.id !in s.replies
         && Answers(s.heard[m.id], m.res))
  }

  function Emits(s: System, m: Emission): System {
    var s1 := s.(toClient := s.toClient + FrameBytes(EmissionFrame(m)), incoming := s.incoming + [m]);
    match m
    case Answer(id, res, errorCode) => s1.(replies := s.replies[id := Reply(res, errorCode)])
    case Push(e) => s1.(pushed := s.pushed + [e])
  }

  function EventsOf(ms: seq<Emission>): seq<Event> {
    if ms == [] then [] else (if ms[0].Push? then [ms[0].event] else []) + EventsOf(ms[1..])
  }

  function ReachesClient(s: System, n: nat): System
    requires n <= |s.toClient|
  {
    var chunk := s.toClient[..n];
    var k := |Drain(s.client.buf + chunk).0|;
    var (got, coming) := if k <= |s.incoming| then (s.incoming[..k], s.incoming[k..]) else (s.incoming, []);
    s.(client := DataStep(s.client, chunk), toClient := s.toClient[n..], incoming := coming,
       seen := s.seen + EventsOf(got))
  }

  function Do(s: System, a: Move): System {
    match a
    case ClientSends(req) => Sends(s, req)
    case BytesReachDevice(n) =>
      if n <= |s.toDevice| then s.(deviceBuf := s.deviceBuf + s.toDevice[..n], toDevice := s.toDevice[n..]) else s
    case DeviceTakesFrame => TakesFrame(s)
    case DeviceEmits(m) => if MayEmit(s, m) then Emits(s, m) else s
    case BytesReachClient(n) => if n <= |s.toClient| then ReachesClient(s, n) else s
    case TimerFires(id) => s.(client := TimeoutStep(s.client, id), disturbed := true)
    case ClientCloses => s.(client := CloseStep(s.client), disturbed := true)
    case SocketCloses => s.(client := SocketCloseStep(s.client), disturbed := true)
  }

  function RunMoves(s: System, moves: seq<Move>): System
    decreases |moves|
  {
    if moves == [] then s else RunMoves(Do(s, moves[0]), moves[1..])
  }

  // ---------------------------------------------------------------- the client in a run

  /** What a move makes the client do: it sends, gets the bytes that arrive, or is timed out or closed. */
  function Acts(s: System, a: Move): seq<Action> {
    match a
    case ClientSends(req) => [DoSend(req)]
    case BytesReachClient(n) => if n <= |s.toClient| then [DoData(s.toClient[..n])] else []
    case TimerFires(id) => [DoTimeout(id)]
    case ClientCloses => [DoClose]
    case SocketCloses => [DoSocketClose]
    case _ => []
  }

  function ActsOfRun(s: System, moves: seq<Move>): seq<Action>
    decreases |moves|
  {
    if moves == [] then [] else Acts(s, moves[0]) + ActsOfRun(Do(s, moves[0]), moves[1..])
  }

  lemma ClientOfMove(s: System, a: Move)
    ensures Do(s, a).client == Run(s.client, Acts(s, a))
  {
    hide SendStep, DataStep, TimeoutStep, CloseStep, SocketCloseStep, Drain;
    assert forall act: Action {:trigger [act][1..]} :: [act][1..] == [];
  }

  lemma {:induction false} RunSplits(s: State, xs: seq<Action>, ys: seq<Action>)
    ensures Run(s, xs + ys) == Run(Run(s, xs), ys)
    decreases |xs|
  {
    hide Next;
    if xs == [] {
      assert xs + ys == ys;
    } else {
      assert (xs + ys)[1..] == xs[1..] + ys;
      RunSplits(Next(s, xs[0]), xs[1..], ys);
    }
  }

  /** In every run of the system the client takes the steps of its own protocol, and nothing else happens to it. */
  lemma {:induction false} ClientOfRun(s: System, moves: seq<Move>)
    ensures RunMoves(s, moves).client == Run(s.client, ActsOfRun(s, moves))
    decreases |moves|
  {
    hide Do, Acts, Next;
    if moves != [] {
      ClientOfMove(s, moves[0]);
      ClientOfRun(Do(s, moves[0]), moves[1..]);
      RunSplits(s.client, Acts(s, moves[0]), ActsOfRun(Do(s, moves[0]), moves[1..]));
    }
  }

  predicate Disturbs(a: Move) { a.TimerFires? || a.ClientCloses? || a.SocketCloses? }

  lemma DisturbedByMove(s: System, a: Move)
    ensures Do(s, a).disturbed <==> s.disturbed || Disturbs(a)
  {
    hide SendStep, DataStep, TimeoutStep, CloseStep, SocketCloseStep, Drain, MayEmit, RequestFrame, EventsOf;
  }

  lemma {:induction false} DisturbedSince(s: System, moves: seq<Move>)
    ensures RunMoves(s, moves).disturbed <==> s.disturbed || exists a :: a in moves && Disturbs(a)
    decreases |moves|
  {
    if moves != [] {
      var first := moves[0];
      hide Do, Disturbs;
      DisturbedByMove(s, first);
      DisturbedSince(Do(s, first), moves[1..]);
      assert forall a :: a in moves <==> a == first || a in moves[1..];
    }
  }

  /** A run counts as disturbed exactly if it has a timeout or a close. */
  lemma DisturbedIff(listeners: seq<Listener>, moves: seq<Move>)
    ensures RunMoves(Start(listeners), moves).disturbed
       <==> exists a :: a in moves && (a.TimerFires? || a.ClientCloses? || a.SocketCloses?)
  {
    DisturbedSince(Start(listeners), moves);
    assert forall a :: a in moves ==> (Disturbs(a) <==> a.TimerFires? || a.ClientCloses? || a.SocketCloses?);
  }

  // ---------------------------------------------------------------- the client, one emission at a time

  function ReplyOutcome(r: Reply): Outcome {
    if r.errorCode > 0 then Rejected(DeviceError(r.errorCode)) else Resolved(Responses.NormResponse(r.res))
  }

  function HandleEmission(c: State, m: Emission): State {
    match m
    case Push(e) => c.(notices := c.notices + Notify(c.listeners, e))
    case Answer(id, res, errorCode) =>
      if id in c.pending then Settle(c, id, ReplyOutcome(Reply(res, errorCode))) else c
  }

  function HandleEmissions(c: State, ms: seq<Emission>): State
    decreases |ms|
  {
    if ms == [] then c else HandleEmissions(HandleEmission(c, ms[0]), ms[1..])
  }

  predicate KindFits(c: State, m: Emission) {
    m.Answer? && m.id in c.pending ==> c.pending[m.id] == m.res.Kind()
  }

  /** The bytes of an emission have on the client the effect that the emission itself means. */
  lemma EmissionFrameHandled(c: State, m: Emission)
    requires Sendable(m) && KindFits(c, m)
    ensures HandleFrame(c, EmissionFrame(m)) == HandleEmission(c, m)
  {
    match m
    case Push(e) => Events.EventRoundTrip(e);
    case Answer(id, res, errorCode) => Responses.ResponseRoundTrip(res, errorCode);
  }

  lemma {:induction false} EmissionsHandled(c: State, ms: seq<Emission>)
    requires forall m :: m in ms ==> Sendable(m) && KindFits(c, m)
    ensures HandleAll(c, MapSeq(EmissionFrame, ms)) == HandleEmissions(c, ms)
    decreases |ms|
  {
    hide Sendable, KindFits, HandleFrame, HandleEmission, EmissionFrame;
    if ms != [] {
      assert ms[0] in ms;
      EmissionFrameHandled(c, ms[0]);
      assert MapSeq(EmissionFrame, ms)[1..] == MapSeq(EmissionFrame, ms[1..]);
      forall m | m in ms[1..] ensures Sendable(m) && KindFits(HandleEmission(c, ms[0]), m) {
        assert m in ms;
        KindFitsLater(c, ms[0], m);
      }
      EmissionsHandled(HandleEmission(c, ms[0]), ms[1..]);
    }
  }

  lemma KindFitsLater(c: State, first: Emission, m: Emission)
    requires KindFits(c, m)
    ensures KindFits(HandleEmission(c, first), m)
  {
  }

  // ---------------------------------------------------------------- the invariant

  function AnswerIds(ms: seq<Emission>): set<nat> { set m | m in ms && m.Answer? :: m.id }

  function OutgoingIds(ps: seq<(nat, Request)>): set<nat> { set p | p in ps :: p.0 }

  lemma OutgoingIdsAppend(ps: seq<(nat, Request)>, p: (nat, Request))
    ensures OutgoingIds(ps + [p]) == OutgoingIds(ps) + {p.0}
  {
    assert forall x :: x in ps + [p] <==> x in ps || x == p;
  }

  lemma OutgoingIdsTail(ps: seq<(nat, Request)>)
    requires ps != []
    ensures OutgoingIds(ps) == OutgoingIds(ps[1..]) + {ps[0].0}
  {
    assert forall x :: x in ps <==> x in ps[1..] || x == ps[0];
  }

  ghost predicate AnswersDistinct(ms: seq<Emission>) {
    forall i, j :: 0 <= i < j < |ms| && ms[i].Answer? && ms[j].Answer? ==> ms[i].id != ms[j].id
  }

  function AllNotices(listeners: seq<Listener>, es: seq<Event>): seq<Notice> {
    if es == [] then [] else AllNotices(listeners, es[..|es| - 1]) + Notify(listeners, es[|es| - 1])
  }

  /** Client to device: what the device has yet to read is exactly the frames of the requests it has yet to take. */
  ghost predicate OutgoingWire(s: System) {
    && s.deviceBuf + s.toDevice == FramesBytes(MapSeq(RequestFrameOf, s.outgoing))
    && (forall p :: p in s.outgoing ==>
         p.0 in s.requests && s.requests[p.0] == p.1 && RequestFrame(p.1, p.0).Success?)
  }

  /** Device to client: what the client has yet to decode is exactly the frames of the incoming emissions. */
  ghost predicate IncomingWire(s: System) {
    && s.client.buf + s.toClient == FramesBytes(MapSeq(EmissionFrame, s.incoming))
    && DecodeFrame(s.client.buf) == None
    && (forall m :: m in s.incoming ==> Sendable(m))
  }

  /** The requests: each pending one was written; those the device heard it heard in normal form. */
  ghost predicate RequestsKnown(s: System) {
    && s.requests.Keys <= s.client.promised
    && (forall id :: id in s.requests ==> !s.requests[id].Connect?)
    && (forall id :: id in s.client.pending ==>
         id in s.requests && s.client.pending[id] == ExpectedKind(s.requests[id]))
    && (forall id :: id in s.heard ==> id in s.requests && s.heard[id] == Requests.NormRequest(s.requests[id]))
    && s.requests.Keys <= s.heard.Keys + OutgoingIds(s.outgoing)
  }

  /** The replies: each belongs to a request that was heard, and an incoming answer is one of them. */
  ghost predicate RepliesKnown(s: System) {
    && (forall id :: id in s.replies ==>
         && id in s.heard && id in s.requests && !s.requests[id].Connect?
         && s.replies[id].res.Kind() == ExpectedKind(s.requests[id]))
    && (forall m :: m in s.incoming && m.Answer? ==>
         m.id in s.replies && s.replies[m.id] == Reply(m.res, m.errorCode))
    && AnswersDistinct(s.incoming)
    && s.pushed == s.seen + EventsOf(s.incoming)
    && s.client.notices == AllNotices(s.client.listeners, s.seen)
  }

  /** Why a promise was settled as it was. */
  ghost predicate Justified(s: System, x: Settlement) {
    match x.outcome
    case Resolved(_) =>
      x.id in s.replies && x.id !in AnswerIds(s.incoming) && x.outcome == ReplyOutcome(s.replies[x.id])
    case Rejected(DeviceError(_)) =>
      x.id in s.replies && x.id !in AnswerIds(s.incoming) && x.outcome == ReplyOutcome(s.replies[x.id])
    case Rejected(Unencodable(_)) => x.id !in s.requests
    case Rejected(TimedOut) => s.disturbed
    case Rejected(SocketClosed) => s.disturbed
    case Rejected(Undecodable(_)) => false
  }

  /** Without timeout and close a written request is pending exactly until its answer has been received. */
  ghost predicate PendingUntilAnswered(s: System) {
    !s.disturbed ==>
      && !s.client.closed
      && forall id :: id in s.requests ==>
           (id in s.client.pending <==> id !in s.replies || id in AnswerIds(s.incoming))
  }

  ghost predicate Core(s: System) {
    && Inv(s.client)
    && RequestsKnown(s)
    && RepliesKnown(s)
    && (forall x :: x in s.client.settled ==> Justified(s, x))
    && PendingUntilAnswered(s)
  }

  ghost predicate SystemInv(s: System) { Core(s) && OutgoingWire(s) && IncomingWire(s) }

  // ---------------------------------------------------------------- the client receives

  /** The first incoming emission has been received and handled. */
  function SeeOne(s: System): System
    requires s.incoming != []
  {
    s.(client := HandleEmission(s.client, s.incoming[0]), incoming := s.incoming[1..],
       seen := s.seen + if s.incoming[0].Push? then [s.incoming[0].event] else [])
  }

  lemma IncomingKindFits(s: System, m: Emission)
    requires RequestsKnown(s) && RepliesKnown(s) && m in s.incoming
    ensures KindFits(s.client, m)
  {
  }

  lemma AnswerIdsTail(ms: seq<Emission>)
    requires ms != [] && AnswersDistinct(ms)
    ensures AnswersDistinct(ms[1..])
    ensures AnswerIds(ms[1..]) == AnswerIds(ms) - if ms[0].Answer? then {ms[0].id} else {}
  {
    assert forall m :: m in ms <==> m == ms[0] || m in ms[1..];
    assert forall i :: 0 <= i < |ms| - 1 ==> ms[1..][i] == ms[i + 1];
  }

  lemma SeeEvent(s: System)
    requires Core(s) && s.incoming != [] && s.incoming[0].Push?
    ensures Core(SeeOne(s))
  {
    hide RequestsKnown, RepliesKnown, PendingUntilAnswered, Justified;
    SeeEventRequests(s);
    SeeEventReplies(s);
    SeeEventJustified(s);
    assert Inv(SeeOne(s).client);
  }

  lemma SeeEventRequests(s: System)
    requires RequestsKnown(s) && s.incoming != [] && s.incoming[0].Push?
    ensures RequestsKnown(SeeOne(s))
  {
    hide Requests.NormRequest, ExpectedKind, Notify, EventsOf, AllNotices;
  }

  lemma NoticesSnoc(listeners: seq<Listener>, es: seq<Event>, e: Event)
    ensures AllNotices(listeners, es + [e]) == AllNotices(listeners, es) + Notify(listeners, e)
  {
    assert (es + [e])[..|es|] == es;
  }

  lemma EventsOfCons(ms: seq<Emission>)
    requires ms != [] && ms[0].Push?
    ensures EventsOf(ms) == [ms[0].event] + EventsOf(ms[1..])
  {
  }

  lemma SeeEventReplies(s: System)
    requires RepliesKnown(s) && s.incoming != [] && s.incoming[0].Push?
    ensures RepliesKnown(SeeOne(s))
  {
    hide ExpectedKind, Notify, AllNotices, AnswersDistinct, AnswerIds, EventsOf;
    var e, tail := s.incoming[0].event, s.incoming[1..];
    AnswerIdsTail(s.incoming);
    NoticesSnoc(s.client.listeners, s.seen, e);
    EventsOfCons(s.incoming);
    assert forall m :: m in tail ==> m in s.incoming;
    assert s.seen + ([e] + EventsOf(tail)) == (s.seen + [e]) + EventsOf(tail);
  }

  lemma SeeEventJustified(s: System)
    requires RepliesKnown(s) && s.incoming != [] && s.incoming[0].Push?
    requires PendingUntilAnswered(s) && forall x :: x in s.client.settled ==> Justified(s, x)
    ensures PendingUntilAnswered(SeeOne(s))
    ensures forall x :: x in SeeOne(s).client.settled ==> Justified(SeeOne(s), x)
  {
    hide ReplyOutcome;
    AnswerIdsTail(s.incoming);
    forall x | x in s.client.settled ensures Justified(SeeOne(s), x) { assert Justified(s, x); }
  }

  lemma SeeAnswer(s: System)
    requires Core(s) && s.incoming != [] && s.incoming[0].Answer?
    ensures Core(SeeOne(s))
  {
    hide RequestsKnown, RepliesKnown, PendingUntilAnswered, Justified;
    var m := s.incoming[0];
    if m.id in s.client.pending {
      SettleKeepsInv(s.client, m.id, ReplyOutcome(Reply(m.res, m.errorCode)));
    }
    hide Inv;
    SeeAnswerKnown(s);
    SeeAnswerJustified(s);
    SeeAnswerPending(s);
  }

  lemma SeeAnswerKnown(s: System)
    requires RequestsKnown(s) && RepliesKnown(s) && s.incoming != [] && s.incoming[0].Answer?
    ensures RequestsKnown(SeeOne(s)) && RepliesKnown(SeeOne(s))
  {
    hide HandleEmission, Requests.NormRequest, ExpectedKind;
    AnswerIdsTail(s.incoming);
    AnswerOnlySettles(s.client, s.incoming[0]);
    assert EventsOf(s.incoming) == EventsOf(s.incoming[1..]);
    assert SeeOne(s).seen == s.seen;
    assert forall m :: m in s.incoming[1..] ==> m in s.incoming;
  }

  lemma AnswerOnlySettles(c: State, m: Emission)
    requires m.Answer?
    ensures var d := HandleEmission(c, m);
            && d == c.(pending := d.pending, armed := d.armed, settled := d.settled)
            && d.pending.Keys <= c.pending.Keys
            && forall id :: id in d.pending ==> d.pending[id] == c.pending[id]
  {
  }

  lemma SeeAnswerJustified(s: System)
    requires RepliesKnown(s) && s.incoming != [] && s.incoming[0].Answer?
    requires forall x :: x in s.client.settled ==> Justified(s, x)
    ensures forall x :: x in SeeOne(s).client.settled ==> Justified(SeeOne(s), x)
  {
    hide ReplyOutcome;
    var m, t := s.incoming[0], SeeOne(s);
    AnswerIdsTail(s.incoming);
    assert m in s.incoming && s.replies[m.id] == Reply(m.res, m.errorCode);
    ReplyOutcomeShape(s.replies[m.id]);
    forall x | x in t.client.settled ensures Justified(t, x) {
      if x in s.client.settled {
        assert Justified(s, x);
      } else {
        assert x == Settlement(m.id, ReplyOutcome(s.replies[m.id]));
      }
    }
  }

  lemma ReplyOutcomeShape(r: Reply)
    ensures ReplyOutcome(r).Resolved? || ReplyOutcome(r).reason.DeviceError?
  {
  }

  lemma SeeAnswerPending(s: System)
    requires PendingUntilAnswered(s) && RepliesKnown(s) && s.incoming != [] && s.incoming[0].Answer?
    ensures PendingUntilAnswered(SeeOne(s))
  {
    AnswerIdsTail(s.incoming);
    assert s.incoming[0] in s.incoming;
  }

  /** The first `k` incoming emissions have been received and handled. */
  function SeeMany(s: System, k: nat): System
    requires k <= |s.incoming|
  {
    s.(client := HandleEmissions(s.client, s.incoming[..k]), incoming := s.incoming[k..],
       seen := s.seen + EventsOf(s.incoming[..k]))
  }

  lemma SeeManyStep(s: System, k: nat)
    requires 0 < k <= |s.incoming|
    ensures SeeMany(s, k) == SeeMany(SeeOne(s), k - 1)
  {
    hide HandleEmission;
    var t := SeeOne(s);
    assert s.incoming[..k] == [s.incoming[0]] + t.incoming[..k - 1];
    assert s.incoming[..k][1..] == t.incoming[..k - 1] && t.incoming[k - 1..] == s.incoming[k..];
    var first := if s.incoming[0].Push? then [s.incoming[0].event] else [];
    assert s.seen + (first + EventsOf(t.incoming[..k - 1])) == (s.seen + first) + EventsOf(t.incoming[..k - 1]);
  }

  lemma {:induction false} SeeManyKeepsCore(s: System, k: nat)
    requires Core(s) && k <= |s.incoming|
    ensures Core(SeeMany(s, k))
    decreases k
  {
    hide Core, HandleEmission;
    if k == 0 {
      assert SeeMany(s, 0) == s;
    } else {
      hide SeeOne, SeeMany;
      if s.incoming[0].Push? { SeeEvent(s); } else { SeeAnswer(s); }
      SeeManyStep(s, k);
      SeeOneLength(s);
      SeeManyKeepsCore(SeeOne(s), k - 1);
    }
  }

  lemma SeeOneLength(s: System)
    requires s.incoming != []
    ensures |SeeOne(s).incoming| == |s.incoming| - 1
  {
  }

  /** Core does not depend on the bytes in flight. */
  lemma CoreIgnoresBytes(s: System, buf: Bytes, toDevice: Bytes, deviceBuf: Bytes, toClient: Bytes)
    requires Core(s)
    ensures Core(s.(client := s.client.(buf := buf), toDevice := toDevice, deviceBuf := deviceBuf,
                    toClient := toClient))
  {
    var t := s.(client := s.client.(buf := buf), toDevice := toDevice, deviceBuf := deviceBuf, toClient := toClient);
    assert forall x :: x in s.client.settled ==> (Justified(s, x) <==> Justified(t, x));
  }

  lemma {:induction false} HandleEmissionsBuf(c: State, ms: seq<Emission>, buf: Bytes)
    ensures HandleEmissions(c.(buf := buf), ms) == HandleEmissions(c, ms).(buf := buf)
    ensures HandleEmissions(c, ms).buf == c.buf
    decreases |ms|
  {
    if ms != [] {
      assert HandleEmission(c.(buf := buf), ms[0]) == HandleEmission(c, ms[0]).(buf := buf);
      HandleEmissionsBuf(HandleEmission(c, ms[0]), ms[1..], buf);
    }
  }

  /** Bytes that reach the client complete some number of emissions, which are handled in order. */
  lemma ReachesClientIsSeeMany(s: System, n: nat) returns (k: nat)
    requires Core(s) && IncomingWire(s) && n <= |s.toClient|
    ensures k <= |s.incoming|
    ensures var t := ReachesClient(s, n);
            t == SeeMany(s, k).(client := SeeMany(s, k).client.(buf := t.client.buf), toClient := s.toClient[n..])
    ensures IncomingWire(ReachesClient(s, n))
  {
    hide Drain, Process, HandleAll, HandleEmissions, EmissionFrame, DecodeFrame, Sendable, KindFits, Core, MapSeq,
      FramesBytes, EventsOf;
    var got := s.client.buf + s.toClient[..n];
    k := ChunkDrains(s, n);
    var (fs, rest) := Drain(got);
    var c := s.client.(buf := rest);
    ProcessIsHandleAll(s.client.(buf := got));
    IncomingFits(s, k, rest);
    EmissionsHandled(c, s.incoming[..k]);
    HandleEmissionsBuf(s.client, s.incoming[..k], rest);
    HandleAllKeepsBuf(c, fs, rest);
  }

  lemma ChunkDrains(s: System, n: nat) returns (k: nat)
    requires IncomingWire(s) && n <= |s.toClient|
    ensures k <= |s.incoming|
    ensures var (fs, rest) := Drain(s.client.buf + s.toClient[..n]);
            && |fs| == k && fs == MapSeq(EmissionFrame, s.incoming[..k])
            && rest + s.toClient[n..] == FramesBytes(MapSeq(EmissionFrame, s.incoming[k..]))
            && DecodeFrame(rest) == None
  {
    hide Drain, EmissionFrame, DecodeFrame, Sendable, FramesBytes;
    var got, coming := s.client.buf + s.toClient[..n], s.toClient[n..];
    var frames := MapSeq(EmissionFrame, s.incoming);
    assert got + coming == s.client.buf + s.toClient;
    SendableFits(s.incoming);
    k := DrainPrefix(frames, got, coming);
    assert frames[..k] == MapSeq(EmissionFrame, s.incoming[..k]);
    assert frames[k..] == MapSeq(EmissionFrame, s.incoming[k..]);
    DrainLeavesNone(got);
  }

  lemma IncomingFits(s: System, k: nat, buf: Bytes)
    requires Core(s) && IncomingWire(s) && k <= |s.incoming|
    ensures forall m :: m in s.incoming[..k] ==> Sendable(m) && KindFits(s.client.(buf := buf), m)
  {
    hide Sendable, FramesBytes, EmissionFrame, DecodeFrame;
    forall m | m in s.incoming[..k] ensures Sendable(m) && KindFits(s.client.(buf := buf), m) {
      assert m in s.incoming;
      IncomingKindFits(s, m);
    }
  }

  lemma SendableFits(ms: seq<Emission>)
    requires forall m :: m in ms ==> Sendable(m)
    ensures forall f :: f in MapSeq(EmissionFrame, ms) ==> FrameFits(f)
  {
    assert forall i :: 0 <= i < |ms| ==> Sendable(ms[i]);
  }

  lemma ReachesClientKeepsInv(s: System, n: nat)
    requires SystemInv(s) && n <= |s.toClient|
    ensures SystemInv(ReachesClient(s, n))
  {
    hide Core, IncomingWire, ReachesClient;
    var k := ReachesClientIsSeeMany(s, n);
    var t := ReachesClient(s, n);
    SeeManyKeepsCore(s, k);
    CoreIgnoresBytes(SeeMany(s, k), t.client.buf, t.toDevice, t.deviceBuf, t.toClient);
  }

  // ---------------------------------------------------------------- the client sends

  /** A request that can be encoded puts exactly its frame on the wire. */
  lemma SendWritesFrame(c: State, req: Request)
    requires !c.closed && !req.Connect? && RequestFrame(req, c.nextReqId).Success?
    ensures SendStep(c, req).written == c.written + FrameBytes(RequestFrameOf((c.nextReqId, req)))
  {
  }

  lemma SendsKeepsWires(s: System, req: Request)
    requires OutgoingWire(s) && IncomingWire(s) && Inv(s.client) && s.requests.Keys <= s.client.promised
    ensures OutgoingWire(Sends(s, req)) && IncomingWire(Sends(s, req))
  {
    hide FrameBytes, RequestFrame, RequestFrameOf, EmissionFrame, DecodeFrame, Sendable, FramesBytes;
    var t, id := Sends(s, req), s.client.nextReqId;
    SendLeavesReceiver(s.client, req);
    SendEffect(s.client, req);
    hide SendStep, Inv;
    if !s.client.closed && !req.Connect? && RequestFrame(req, id).Success? {
      SendWritesFrame(s.client, req);
      var frame := RequestFrameOf((id, req));
      assert t.toDevice == s.toDevice + FrameBytes(frame);
      AppendFrame(s.deviceBuf, s.toDevice, MapSeq(RequestFrameOf, s.outgoing), frame);
      assert MapSeq(RequestFrameOf, t.outgoing) == MapSeq(RequestFrameOf, s.outgoing) + [frame];
      assert id !in s.requests;
      assert forall p :: p in t.outgoing ==> p in s.outgoing || p == (id, req);
    }
  }

  lemma AppendFrame(buf: Bytes, flight: Bytes, fs: seq<Frame>, f: Frame)
    requires buf + flight == FramesBytes(fs)
    ensures buf + (flight + FrameBytes(f)) == FramesBytes(fs + [f])
  {
    hide FrameBytes;
    EncodeAllAppend(FrameBytes, fs, [f]);
    assert EncodeAll(FrameBytes, [f]) == FrameBytes(f);
    assert buf + (flight + FrameBytes(f)) == (buf + flight) + FrameBytes(f);
  }

  lemma SendLeavesReceiver(c: State, req: Request)
    ensures var d := SendStep(c, req);
            d.buf == c.buf && d.notices == c.notices && d.listeners == c.listeners && d.closed == c.closed
  {
  }

  /** How sending changes what is pending and settled. */
  lemma SendEffect(c: State, req: Request)
    requires Inv(c)
    ensures var d, id := SendStep(c, req), c.nextReqId;
            if c.closed || req.Connect? then
              d.pending == c.pending && d.settled == c.settled && d.promised == c.promised
            else if RequestFrame(req, id).Success? then
              && d.pending == c.pending[id := ExpectedKind(req)] && d.settled == c.settled
              && d.promised == c.promised + {id} && id !in c.promised
            else
              && d.pending == c.pending && d.promised == c.promised + {id} && id !in c.promised
              && d.settled == c.settled + [Settlement(id, Rejected(Unencodable(RequestFrame(req, id).error)))]
  {
    var id := c.nextReqId;
    if !c.closed && !req.Connect? {
      assert id !in c.promised;
      match RequestFrame(req, id)
      case Success(_) =>
      case Failure(e) =>
        assert c.pending[id := ExpectedKind(req)] - {id} == c.pending;
        assert SendStep(c, req).settled == c.settled + [Settlement(id, Rejected(Unencodable(e)))];
    }
  }

  lemma SendsKeepsInv(s: System, req: Request)
    requires SystemInv(s)
    ensures SystemInv(Sends(s, req))
  {
    hide RepliesKnown, PendingUntilAnswered, Justified, OutgoingWire, IncomingWire;
    SendsKeepsWires(s, req);
    SendsKeepsRequests(s, req);
    SendsKeepsReplies(s, req);
    SendsKeepsPending(s, req);
    SendsKeepsJustified(s, req);
    SendKeepsInv(s.client, req);
  }

  lemma SendsKeepsRequests(s: System, req: Request)
    requires Inv(s.client) && RequestsKnown(s)
    ensures RequestsKnown(Sends(s, req))
  {
    hide SendStep, Inv, Requests.NormRequest, ExpectedKind, RequestFrame, OutgoingIds;
    SendEffect(s.client, req);
    OutgoingIdsAppend(s.outgoing, (s.client.nextReqId, req));
  }

  lemma SendsKeepsReplies(s: System, req: Request)
    requires Inv(s.client) && RequestsKnown(s) && RepliesKnown(s)
    ensures RepliesKnown(Sends(s, req))
  {
    hide SendStep, Inv, Requests.NormRequest, ExpectedKind, RequestFrame, EventsOf, AllNotices;
    SendEffect(s.client, req);
    SendLeavesReceiver(s.client, req);
  }

  lemma SendsKeepsPending(s: System, req: Request)
    requires Inv(s.client) && RequestsKnown(s) && RepliesKnown(s) && PendingUntilAnswered(s)
    ensures PendingUntilAnswered(Sends(s, req))
  {
    hide Inv, SendStep, RequestsKnown, RepliesKnown, ExpectedKind, RequestFrame, AnswerIds;
    KnownPromised(s);
    SendEffect(s.client, req);
    SendLeavesReceiver(s.client, req);
  }

  lemma KnownPromised(s: System)
    requires Inv(s.client) && RequestsKnown(s) && RepliesKnown(s)
    ensures s.replies.Keys <= s.requests.Keys <= s.client.promised
    ensures forall x :: x in s.client.settled ==> x.id in s.client.promised
  {
    hide Requests.NormRequest, ExpectedKind;
    assert forall x :: x in s.client.settled ==> x.id in SettledIds(s.client.settled);
  }

  lemma SendsKeepsJustified(s: System, req: Request)
    requires Inv(s.client) && RequestsKnown(s) && RepliesKnown(s)
    requires forall x :: x in s.client.settled ==> Justified(s, x)
    ensures forall x :: x in Sends(s, req).client.settled ==> Justified(Sends(s, req), x)
  {
    var t := Sends(s, req);
    hide Inv, SendStep, ExpectedKind, RequestFrame, AnswerIds, ReplyOutcome, RepliesKnown, RequestsKnown;
    KnownPromised(s);
    SendEffect(s.client, req);
    forall x | x in t.client.settled ensures Justified(t, x) {
      if x in s.client.settled { assert Justified(s, x); }
    }
  }

  // ---------------------------------------------------------------- the device takes a frame

  /** A complete frame at the front of a stream of frames is the first of them. */
  lemma HeadFrame(fs: seq<Frame>, got: Bytes, coming: Bytes)
    requires forall f :: f in fs ==> FrameFits(f)
    requires got + coming == FramesBytes(fs) && DecodeFrame(got).Some?
    ensures fs != []
    ensures var (f, consumed) := DecodeFrame(got).value;
            f == fs[0] && consumed <= |got| && got[consumed..] + coming == FramesBytes(fs[1..])
  {
    DecodeFramePrefixStable(got, coming);
    if fs != [] {
      FrameRoundTrip(fs[0], FramesBytes(fs[1..]));
      var n := |FrameBytes(fs[0])|;
      assert got[n..] + coming == (got + coming)[n..];
    }
  }

  lemma RequestFramesFit(s: System)
    requires OutgoingWire(s)
    ensures forall f :: f in MapSeq(RequestFrameOf, s.outgoing) ==> FrameFits(f)
  {
    hide FrameBytes, FramesBytes;
    var frames := MapSeq(RequestFrameOf, s.outgoing);
    forall f | f in frames ensures FrameFits(f) {
      var i :| 0 <= i < |frames| && frames[i] == f;
      assert s.outgoing[i] in s.outgoing;
    }
  }

  lemma TakesFrameWire(s: System)
    requires OutgoingWire(s) && DecodeFrame(s.deviceBuf).Some?
    ensures s.outgoing != [] && OutgoingWire(TakesFrame(s))
    ensures DecodeFrame(s.deviceBuf).value.0 == RequestFrameOf(s.outgoing[0])
  {
    hide DecodeFrame, FrameBytes, FramesBytes, RequestFrameOf, FrameFits, RequestFrame, Requests.DecodeRequest;
    var frames := MapSeq(RequestFrameOf, s.outgoing);
    RequestFramesFit(s);
    HeadFrame(frames, s.deviceBuf, s.toDevice);
    assert frames[1..] == MapSeq(RequestFrameOf, s.outgoing[1..]);
    assert forall p :: p in s.outgoing[1..] ==> p in s.outgoing;
  }

  lemma TakesFrameKeepsInv(s: System)
    requires SystemInv(s)
    ensures SystemInv(TakesFrame(s))
  {
    if DecodeFrame(s.deviceBuf).Some? {
      TakesFrameWire(s);
      var (id, req) := s.outgoing[0];
      assert (id, req) in s.outgoing;
      Requests.RequestRoundTrip(req);
      HearsKeepsCore(s, id, TakesFrame(s).deviceBuf);
    }
  }

  function Hears(s: System, id: nat, deviceBuf: Bytes): System
    requires s.outgoing != [] && id in s.requests
  {
    s.(deviceBuf := deviceBuf, outgoing := s.outgoing[1..],
       heard := s.heard[id := Requests.NormRequest(s.requests[id])])
  }

  /** The device has heard the first of the outgoing requests. */
  lemma HearsKeepsCore(s: System, id: nat, deviceBuf: Bytes)
    requires Core(s) && s.outgoing != [] && s.outgoing[0].0 == id && id in s.requests
    ensures Core(Hears(s, id, deviceBuf))
  {
    hide Inv, RequestsKnown, RepliesKnown, Justified, PendingUntilAnswered, AnswerIds;
    HearsKeepsRequests(s, id, deviceBuf);
    HearsKeepsReplies(s, id, deviceBuf);
    HearsKeepsJustified(s, id, deviceBuf);
  }

  lemma HearsKeepsRequests(s: System, id: nat, deviceBuf: Bytes)
    requires RequestsKnown(s) && s.outgoing != [] && s.outgoing[0].0 == id && id in s.requests
    ensures RequestsKnown(Hears(s, id, deviceBuf))
  {
    hide ExpectedKind, Requests.NormRequest;
    OutgoingIdsTail(s.outgoing);
  }

  lemma HearsKeepsReplies(s: System, id: nat, deviceBuf: Bytes)
    requires RepliesKnown(s) && s.outgoing != [] && id in s.requests
    ensures RepliesKnown(Hears(s, id, deviceBuf))
  {
    hide ExpectedKind, Requests.NormRequest, EventsOf, AllNotices;
  }

  lemma HearsKeepsJustified(s: System, id: nat, deviceBuf: Bytes)
    requires PendingUntilAnswered(s) && s.outgoing != [] && id in s.requests
    requires forall x :: x in s.client.settled ==> Justified(s, x)
    ensures PendingUntilAnswered(Hears(s, id, deviceBuf))
    ensures forall x :: x in s.client.settled ==> Justified(Hears(s, id, deviceBuf), x)
  {
    hide AnswerIds, ReplyOutcome, Requests.NormRequest;
    forall x | x in s.client.settled ensures Justified(Hears(s, id, deviceBuf), x) { assert Justified(s, x); }
  }

  // ---------------------------------------------------------------- the device emits

  lemma NormKeepsExpectedKind(req: Request)
    requires !req.Connect?
    ensures !Requests.NormRequest(req).Connect? && ExpectedKind(Requests.NormRequest(req)) == ExpectedKind(req)
  {
  }

  lemma EventsOfStep(m: Emission, ms: seq<Emission>)
    ensures EventsOf([m] + ms) == (if m.Push? then [m.event] else []) + EventsOf(ms)
  {
    assert ([m] + ms)[1..] == ms;
  }

  lemma NoEvents()
    ensures EventsOf([]) == []
  {
  }

  lemma {:induction false} EventsOfAppend(ms: seq<Emission>, m: Emission)
    ensures EventsOf(ms + [m]) == EventsOf(ms) + if m.Push? then [m.event] else []
  {
    hide EventsOf;
    var tail := if m.Push? then [m.event] else [];
    if ms == [] {
      EventsOfStep(m, []);
      NoEvents();
      assert ms + [m] == [m] + [] && tail + [] == [] + tail;
    } else {
      var first := if ms[0].Push? then [ms[0].event] else [];
      assert ms + [m] == [ms[0]] + (ms[1..] + [m]) && ms == [ms[0]] + ms[1..];
      EventsOfAppend(ms[1..], m);
      EventsOfStep(ms[0], ms[1..] + [m]);
      EventsOfStep(ms[0], ms[1..]);
      assert first + (EventsOf(ms[1..]) + tail) == (first + EventsOf(ms[1..])) + tail;
    }
  }

  lemma EmitsKeepsWires(s: System, m: Emission)
    requires OutgoingWire(s) && IncomingWire(s) && Sendable(m)
    ensures OutgoingWire(Emits(s, m)) && IncomingWire(Emits(s, m))
  {
    hide FrameBytes, EmissionFrame, DecodeFrame, FramesBytes, Sendable, RequestFrame, RequestFrameOf;
    AppendFrame(s.client.buf, s.toClient, MapSeq(EmissionFrame, s.incoming), EmissionFrame(m));
    assert MapSeq(EmissionFrame, s.incoming + [m]) == MapSeq(EmissionFrame, s.incoming) + [EmissionFrame(m)];
    assert forall x :: x in s.incoming + [m] <==> x in s.incoming || x == m;
  }

  lemma EmitsAnswerIds(ms: seq<Emission>, m: Emission)
    ensures AnswerIds(ms + [m]) == AnswerIds(ms) + if m.Answer? then {m.id} else {}
  {
    assert forall x :: x in ms + [m] <==> x in ms || x == m;
  }

  lemma EmitsKeepsCore(s: System, m: Emission)
    requires Core(s) && MayEmit(s, m)
    ensures Core(Emits(s, m))
  {
    if m.Push? { EmitsEvent(s, m); } else { EmitsAnswer(s, m); }
  }

  lemma EmitsEvent(s: System, m: Emission)
    requires Core(s) && m.Push?
    ensures Core(Emits(s, m))
  {
    var t := Emits(s, m);
    EmitsAnswerIds(s.incoming, m);
    EventsOfAppend(s.incoming, m);
    hide Inv, ExpectedKind, Requests.NormRequest, Sendable, ReplyOutcome, AllNotices, EventsOf, FrameBytes,
      EmissionFrame, AnswerIds;
    assert s.seen + EventsOf(s.incoming) + [m.event] == s.seen + (EventsOf(s.incoming) + [m.event]);
    assert RepliesKnown(t) by { hide RequestsKnown, Justified, PendingUntilAnswered; }
    hide RepliesKnown;
    assert RequestsKnown(t) && PendingUntilAnswered(t) by { hide Justified; }
    assert forall x :: x in s.client.settled ==> Justified(s, x) && Justified(t, x) by {
      hide RequestsKnown, PendingUntilAnswered;
    }
  }

  lemma EmitsAnswer(s: System, m: Emission)
    requires Core(s) && MayEmit(s, m) && m.Answer?
    ensures Core(Emits(s, m))
  {
    hide RequestsKnown, RepliesKnown, PendingUntilAnswered, Justified, MayEmit, Inv;
    EmitsAnswerReplies(s, m);
    EmitsAnswerRest(s, m);
  }

  lemma EmitsAnswerRest(s: System, m: Emission)
    requires RequestsKnown(s) && RepliesKnown(s) && PendingUntilAnswered(s) && MayEmit(s, m) && m.Answer?
    requires forall x :: x in s.client.settled ==> Justified(s, x)
    ensures RequestsKnown(Emits(s, m)) && PendingUntilAnswered(Emits(s, m))
    ensures forall x :: x in s.client.settled ==> Justified(Emits(s, m), x)
  {
    hide Sendable, RepliesKnown, ExpectedKind, Requests.NormRequest, ReplyOutcome, FrameBytes, EmissionFrame, AnswerIds;
    EmitsAnswerIds(s.incoming, m);
    assert forall x :: x in s.client.settled ==> Justified(s, x) && Justified(Emits(s, m), x) by {
      hide RequestsKnown, PendingUntilAnswered;
    }
  }

  lemma EmitsAnswerReplies(s: System, m: Emission)
    requires RequestsKnown(s) && RepliesKnown(s) && MayEmit(s, m) && m.Answer?
    ensures RepliesKnown(Emits(s, m))
  {
    hide Sendable, AllNotices, Requests.NormRequest, ExpectedKind, EventsOf, FrameBytes, EmissionFrame;
    NormKeepsExpectedKind(s.requests[m.id]);
    ExpectedKindIff(s.heard[m.id], m.res);
    EventsOfAppend(s.incoming, m);
    assert EventsOf(s.incoming + [m]) == EventsOf(s.incoming);
    assert forall i :: 0 <= i < |s.incoming| ==> s.incoming[i] in s.incoming;
    assert forall x :: x in s.incoming + [m] <==> x in s.incoming || x == m;
  }

  // ---------------------------------------------------------------- timeouts and closes

  /** Steps that only settle pending promises for reasons that need a disturbance. */
  ghost predicate OnlyRejects(c: State, d: State) {
    && d.buf == c.buf && d.notices == c.notices && d.listeners == c.listeners && d.promised == c.promised
    && d.pending.Keys <= c.pending.Keys
    && (forall id :: id in d.pending ==> d.pending[id] == c.pending[id])
    && (forall x :: x in d.settled ==>
         x in c.settled || x.outcome == Rejected(TimedOut) || x.outcome == Rejected(SocketClosed))
  }

  lemma {:induction false} RejectFromOnlyRejects(c: State, id: nat)
    ensures OnlyRejects(c, RejectFrom(c, id))
    decreases c.nextReqId - id
  {
    if id < c.nextReqId {
      var d := if id in c.pending then Settle(c, id, Rejected(SocketClosed)) else c;
      assert OnlyRejects(c, d);
      RejectFromOnlyRejects(d, id + 1);
    }
  }

  lemma DisturbedKeepsInv(s: System, d: State)
    requires SystemInv(s) && Inv(d) && OnlyRejects(s.client, d)
    ensures SystemInv(s.(client := d, disturbed := true))
  {
    hide Inv, ExpectedKind, Requests.NormRequest, Sendable, ReplyOutcome, DecodeFrame, AnswerIds, EventsOf, AllNotices,
      EmissionFrame, RequestFrame, RequestFrameOf, FramesBytes;
    var t := s.(client := d, disturbed := true);
    assert RequestsKnown(t) && RepliesKnown(t) by { hide Justified, OutgoingWire, IncomingWire; }
    forall x | x in d.settled ensures Justified(t, x) {
      hide RequestsKnown, RepliesKnown, OutgoingWire, IncomingWire;
      if x in s.client.settled { assert Justified(s, x); }
    }
  }

  // ---------------------------------------------------------------- every run

  lemma DoKeepsInv(s: System, a: Move)
    requires SystemInv(s)
    ensures SystemInv(Do(s, a))
  {
    hide Core, OutgoingWire, IncomingWire, OnlyRejects;
    match a
    case ClientSends(req) =>
      SendsKeepsInv(s, req);
    case BytesReachDevice(n) =>
      if n <= |s.toDevice| { ReachesDeviceKeepsInv(s, n); }
    case DeviceTakesFrame => TakesFrameKeepsInv(s);
    case DeviceEmits(m) =>
      if MayEmit(s, m) {
        EmitsKeepsCore(s, m);
        EmitsKeepsWires(s, m);
      }
    case BytesReachClient(n) => if n <= |s.toClient| { ReachesClientKeepsInv(s, n); }
    case TimerFires(id) => TimeoutKeepsInv(s, id);
    case ClientCloses => CloseKeepsInv(s);
    case SocketCloses => SocketCloseKeepsInv(s);
  }

  lemma ReachesDeviceKeepsInv(s: System, n: nat)
    requires SystemInv(s) && n <= |s.toDevice|
    ensures SystemInv(Do(s, BytesReachDevice(n)))
  {
    hide Core, FramesBytes, RequestFrameOf, RequestFrame, EmissionFrame, Sendable, DecodeFrame;
    var t := Do(s, BytesReachDevice(n));
    CoreIgnoresBytes(s, s.client.buf, t.toDevice, t.deviceBuf, s.toClient);
    assert t.deviceBuf + t.toDevice == s.deviceBuf + s.toDevice;
    assert OutgoingWire(t) && IncomingWire(t);
  }

  lemma TimeoutOnlyRejects(c: State, id: nat)
    ensures OnlyRejects(c, TimeoutStep(c, id))
  {
  }

  lemma TimeoutKeepsInv(s: System, id: nat)
    requires SystemInv(s)
    ensures SystemInv(Do(s, TimerFires(id)))
  {
    hide RequestsKnown, RepliesKnown, PendingUntilAnswered, Justified, OutgoingWire, IncomingWire, OnlyRejects;
    NextKeepsInv(s.client, DoTimeout(id));
    TimeoutOnlyRejects(s.client, id);
    DisturbedKeepsInv(s, TimeoutStep(s.client, id));
  }

  lemma CloseOnlyRejects(c: State)
    ensures OnlyRejects(c, CloseStep(c)) && OnlyRejects(c, SocketCloseStep(c))
  {
    RejectFromOnlyRejects(c.(closed := true), 0);
  }

  lemma CloseKeepsInv(s: System)
    requires SystemInv(s)
    ensures SystemInv(Do(s, ClientCloses))
  {
    hide RequestsKnown, RepliesKnown, PendingUntilAnswered, Justified, OutgoingWire, IncomingWire, OnlyRejects;
    NextKeepsInv(s.client, DoClose);
    CloseOnlyRejects(s.client);
    DisturbedKeepsInv(s, CloseStep(s.client));
  }

  lemma SocketCloseKeepsInv(s: System)
    requires SystemInv(s)
    ensures SystemInv(Do(s, SocketCloses))
  {
    hide RequestsKnown, RepliesKnown, PendingUntilAnswered, Justified, OutgoingWire, IncomingWire, OnlyRejects;
    NextKeepsInv(s.client, DoSocketClose);
    CloseOnlyRejects(s.client);
    DisturbedKeepsInv(s, SocketCloseStep(s.client));
  }

  lemma {:induction false} RunMovesKeepsInv(s: System, moves: seq<Move>)
    requires SystemInv(s)
    ensures SystemInv(RunMoves(s, moves))
    decreases |moves|
  {
    if moves != [] {
      DoKeepsInv(s, moves[0]);
      RunMovesKeepsInv(Do(s, moves[0]), moves[1..]);
    }
  }

  lemma EveryRunKeepsInv(listeners: seq<Listener>, moves: seq<Move>)
    ensures SystemInv(RunMoves(Start(listeners), moves))
  {
    hide RunMoves, SystemInv;
    StartIsSound(listeners);
    RunMovesKeepsInv(Start(listeners), moves);
  }

  lemma StartIsSound(listeners: seq<Listener>)
    ensures SystemInv(Start(listeners))
  {
    hide ExpectedKind, Requests.NormRequest, RequestFrame, Sendable, ReplyOutcome;
  }

  // ---------------------------------------------------------------- the end-to-end theorems

  /** The device decoded the request `id` as it was meant, and replied with this response and no error. */
  ghost predicate OwnAnswer(s: System, id: nat, res: Response) {
    && id in s.requests && id in s.heard && id in s.replies
    && s.heard[id] == Requests.NormRequest(s.requests[id])
    && s.replies[id].errorCode == 0
    && res == Responses.NormResponse(s.replies[id].res)
    && Answers(s.requests[id], res)
  }

  lemma NormKeepsKind(res: Response)
    ensures Responses.NormResponse(res).Kind() == res.Kind()
  {
  }

  /**
   In every run, with any chunking and order, timeouts and closes included: a promise that resolves, resolves with the
   normal form of the device's response to that very request, which is of a kind that answers it.
   */
  lemma ResolvedWithOwnAnswer(listeners: seq<Listener>, moves: seq<Move>, s: System, x: Settlement)
    requires s == RunMoves(Start(listeners), moves) && x in s.client.settled && x.outcome.Resolved?
    ensures OwnAnswer(s, x.id, x.outcome.res)
  {
    EveryRunKeepsInv(listeners, moves);
    JustifiedOwnAnswer(s, x);
  }

  lemma JustifiedOwnAnswer(s: System, x: Settlement)
    requires Core(s) && x in s.client.settled && x.outcome.Resolved?
    ensures OwnAnswer(s, x.id, x.outcome.res)
  {
    hide Inv, Requests.NormRequest, Responses.NormResponse, ExpectedKind, PendingUntilAnswered, Answers;
    assert Justified(s, x);
    NormKeepsKind(s.replies[x.id].res);
    ExpectedKindIff(s.requests[x.id], x.outcome.res);
  }

  /**
   In every run without timeout and close, once the device's bytes have all arrived: each reply has settled its own
   request, resolved if the error code is zero and rejected with the code otherwise; exactly the written requests
   without a reply are pending; and the listeners have been called for every event pushed, in the order of the wire.
   */
  lemma DeliveredRunIsComplete(listeners: seq<Listener>, moves: seq<Move>, s: System)
    requires s == RunMoves(Start(listeners), moves) && !s.disturbed && s.toClient == []
    ensures forall id :: id in s.replies ==> Settlement(id, ReplyOutcome(s.replies[id])) in s.client.settled
    ensures s.client.pending.Keys == s.requests.Keys - s.replies.Keys
    ensures s.seen == s.pushed && s.client.notices == AllNotices(s.client.listeners, s.pushed) && s.client.buf == []
  {
    EveryRunKeepsInv(listeners, moves);
    Delivered(s);
  }

  lemma NothingLeft(s: System)
    requires IncomingWire(s) && s.toClient == []
    ensures s.incoming == [] && s.client.buf == []
  {
    var frames := MapSeq(EmissionFrame, s.incoming);
    SendableFits(s.incoming);
    assert s.client.buf + [] == s.client.buf;
    if s.incoming != [] { FrameRoundTrip(frames[0], FramesBytes(frames[1..])); }
  }

  lemma Delivered(s: System)
    requires SystemInv(s) && !s.disturbed && s.toClient == []
    ensures forall id :: id in s.replies ==> Settlement(id, ReplyOutcome(s.replies[id])) in s.client.settled
    ensures s.client.pending.Keys == s.requests.Keys - s.replies.Keys
    ensures s.seen == s.pushed && s.client.notices == AllNotices(s.client.listeners, s.pushed) && s.client.buf == []
  {
    NothingLeft(s);
    hide IncomingWire, OutgoingWire, Justified, Inv, Requests.NormRequest, ExpectedKind, ReplyOutcome, AllNotices;
    forall id | id in s.replies ensures Settlement(id, ReplyOutcome(s.replies[id])) in s.client.settled {
      RepliedIsSettled(s, id);
    }
  }

  lemma RepliedIsSettled(s: System, id: nat)
    requires Core(s) && !s.disturbed && s.incoming == [] && id in s.replies
    ensures Settlement(id, ReplyOutcome(s.replies[id])) in s.client.settled
  {
    hide Requests.NormRequest, ExpectedKind, ReplyOutcome, AllNotices;
    assert id in SettledIds(s.client.settled);
    var x :| x in s.client.settled && x.id == id;
    assert Justified(s, x);
  }

  /** If moreover every request has arrived, been taken and been answered, no promise for a written request is open. */
  lemma AllAnsweredAllSettled(listeners: seq<Listener>, moves: seq<Move>, s: System)
    requires s == RunMoves(Start(listeners), moves) && !s.disturbed && s.toClient == []
    requires s.toDevice == [] && DecodeFrame(s.deviceBuf) == None && s.heard.Keys <= s.replies.Keys
    ensures s.client.pending == map[] && s.client.armed == {}
  {
    DeliveredRunIsComplete(listeners, moves, s);
    EveryRunKeepsInv(listeners, moves);
    NothingOutgoing(s);
  }

  lemma NothingOutgoing(s: System)
    requires SystemInv(s) && s.toDevice == [] && DecodeFrame(s.deviceBuf) == None
    ensures s.outgoing == [] && s.requests.Keys <= s.heard.Keys
  {
    hide IncomingWire, PendingUntilAnswered, Justified;
    var frames := MapSeq(RequestFrameOf, s.outgoing);
    assert s.deviceBuf + [] == s.deviceBuf;
    if s.outgoing != [] {
      assert s.outgoing[0] in s.outgoing;
      FrameRoundTrip(frames[0], FramesBytes(frames[1..]));
    }
  }

  // ---------------------------------------------------------------- every request can be served

  /** Sound, undisturbed, and nothing on its way in either direction. */
  ghost predicate Quiet(s: System) { SystemInv(s) && !s.disturbed && s.outgoing == [] && s.incoming == [] }

  lemma QuietBuffers(s: System)
    requires Quiet(s)
    ensures Inv(s.client)
    ensures s.deviceBuf == [] && s.toDevice == [] && s.client.buf == [] && s.toClient == [] && !s.client.closed
    ensures s.client.nextReqId !in s.client.promised && s.client.nextReqId >= 1
    ensures s.client.nextReqId !in s.heard && s.client.nextReqId !in s.replies
  {
    hide Justified, ExpectedKind, Requests.NormRequest, AllNotices;
    assert |s.deviceBuf + s.toDevice| == 0 && |s.client.buf + s.toClient| == 0;
  }

  /** The request is on its way as one frame. */
  lemma SentFrame(s: System, req: Request) returns (t: System)
    requires Quiet(s) && !req.Connect? && RequestFrame(req, s.client.nextReqId).Success?
    ensures t == Do(s, ClientSends(req))
    ensures var id := s.client.nextReqId;
            && t.toDevice == FrameBytes(RequestFrameOf((id, req))) && FrameFits(RequestFrameOf((id, req)))
            && t == s.(client := SendStep(s.client, req), toDevice := t.toDevice, requests := s.requests[id := req],
                       outgoing := [(id, req)])
            && Requests.EncodeRequest(req).Success?
  {
    hide Core, OutgoingWire, IncomingWire, FrameBytes, Requests.EncodeRequest;
    QuietBuffers(s);
    t := Do(s, ClientSends(req));
    var bytes := RequestFrame(req, s.client.nextReqId).value;
    assert (s.client.written + bytes)[|s.client.written|..] == bytes;
    assert [] + bytes == bytes && s.outgoing + [(s.client.nextReqId, req)] == [(s.client.nextReqId, req)];
  }

  /** The device reads it, in normal form. */
  lemma TakenFrame(s: System, id: nat, req: Request) returns (t: System)
    requires s.deviceBuf == [] && s.toDevice == FrameBytes(RequestFrameOf((id, req))) && s.outgoing == [(id, req)]
    requires FrameFits(RequestFrameOf((id, req))) && Requests.EncodeRequest(req).Success?
    ensures t == Do(Do(s, BytesReachDevice(|s.toDevice|)), DeviceTakesFrame)
    ensures t == s.(toDevice := [], outgoing := [], heard := s.heard[id := Requests.NormRequest(req)])
  {
    hide FrameBytes, DecodeFrame, Requests.EncodeRequest, Requests.DecodeRequest, Requests.NormRequest;
    var frame := RequestFrameOf((id, req));
    var bytes := FrameBytes(frame);
    var u := Do(s, BytesReachDevice(|s.toDevice|));
    assert bytes[..|bytes|] == bytes && bytes[|bytes|..] == [] && [] + bytes == bytes && bytes + [] == bytes;
    assert u == s.(deviceBuf := bytes, toDevice := []);
    FrameRoundTrip(frame, []);
    Requests.RequestRoundTrip(req);
    t := Do(u, DeviceTakesFrame);
    assert [(id, req)][1..] == [];
  }

  /** What the device emits travels to the client and is handled as what it means. */
  lemma EmissionArrives(s: System, m: Emission) returns (t: System)
    requires SystemInv(s) && s.client.buf == [] && s.toClient == [] && s.incoming == [] && MayEmit(s, m)
    ensures var u := Do(s, DeviceEmits(m)); t == Do(u, BytesReachClient(|u.toClient|))
    ensures t.client.settled == HandleEmission(s.client, m).settled
    ensures t.client.pending == HandleEmission(s.client, m).pending
    ensures t.client.notices == HandleEmission(s.client, m).notices
    ensures t.incoming == [] && t.outgoing == s.outgoing && t.disturbed == s.disturbed
  {
    hide SystemInv, MayEmit, ReachesClient, HandleEmission, HandleEmissions, FrameBytes, EmissionFrame, EventsOf;
    var u := Do(s, DeviceEmits(m));
    assert u.incoming == [m] && u.client == s.client && u.outgoing == s.outgoing && u.disturbed == s.disturbed;
    DoKeepsInv(s, DeviceEmits(m));
    t := Do(u, BytesReachClient(|u.toClient|));
    ReachesInWhole(u, t);
    DoKeepsInv(u, BytesReachClient(|u.toClient|));
    OneEmission(s.client, m);
    assert [m][1..] == [];
  }

  /** All bytes on their way to the client arrive, and with them all emissions. */
  lemma ReachesInWhole(u: System, t: System)
    requires SystemInv(u) && t == ReachesClient(u, |u.toClient|)
    ensures t == SeeMany(u, |u.incoming|).(client := HandleEmissions(u.client, u.incoming).(buf := t.client.buf),
                                           toClient := [])
  {
    hide Core, IncomingWire, HandleEmissions, EventsOf, ReachesClient;
    var k := ReachesClientIsSeeMany(u, |u.toClient|);
    assert u.toClient[|u.toClient|..] == [];
    NothingLeft(t);
    assert u.incoming[k..] == [];
    assert u.incoming[..|u.incoming|] == u.incoming && k == |u.incoming|;
  }

  lemma OneEmission(c: State, m: Emission)
    ensures HandleEmissions(c, [m]) == HandleEmission(c, m)
  {
    hide HandleEmission;
    assert [m][1..] == [];
    assert HandleEmissions(HandleEmission(c, m), []) == HandleEmission(c, m);
  }

  /**
   From every sound, undisturbed system with nothing on its way, any request that can be written can be served: with any
   answer that fits it, it takes these five moves, and its promise is settled with just that answer.
   */
  lemma EveryRequestCanBeServed(s: System, req: Request, res: Response, code: nat) returns (t: System, moves: seq<Move>)
    requires Quiet(s) && !req.Connect? && RequestFrame(req, s.client.nextReqId).Success?
    requires Answers(req, res) && Sendable(Answer(s.client.nextReqId, res, code))
    ensures t == RunMoves(s, moves) && Quiet(t)
    ensures t.client.settled
         == s.client.settled + [Settlement(s.client.nextReqId,
              if code == 0 then Resolved(Responses.NormResponse(res)) else Rejected(DeviceError(code)))]
    ensures t.client.pending == s.client.pending
  {
    hide SystemInv, Sendable, Do, HandleEmission, RequestFrame, RequestFrameOf, FrameBytes, Answers,
      Requests.NormRequest, RunMoves, SendStep;
    var id, m := s.client.nextReqId, Answer(s.client.nextReqId, res, code);
    QuietBuffers(s);
    var s1 := SentFrame(s, req);
    var s2 := Do(s1, BytesReachDevice(|s1.toDevice|));
    var s3 := TakenFrame(s1, id, req);
    DoKeepsInv(s, ClientSends(req));
    DoKeepsInv(s1, BytesReachDevice(|s1.toDevice|));
    DoKeepsInv(s2, DeviceTakesFrame);
    SendLeavesReceiver(s.client, req);
    AnswersNorm(req, res);
    t := EmissionArrives(s3, m);
    var s4 := Do(s3, DeviceEmits(m));
    DoKeepsInv(s3, DeviceEmits(m));
    DoKeepsInv(s4, BytesReachClient(|s4.toClient|));
    moves := [ClientSends(req), BytesReachDevice(|s1.toDevice|), DeviceTakesFrame, DeviceEmits(m),
              BytesReachClient(|s4.toClient|)];
    FiveMoves(s, moves);
    PromiseSettled(s.client, req, m);
  }

  /** And every event that can be written can be delivered, to the listeners that are called for it. */
  lemma EveryEventCanBeDelivered(s: System, e: Event) returns (t: System)
    requires Quiet(s) && Sendable(Push(e))
    ensures var u := Do(s, DeviceEmits(Push(e))); t == Do(u, BytesReachClient(|u.toClient|))
    ensures Quiet(t) && t.client.notices == s.client.notices + Notify(s.client.listeners, e)
    ensures t.client.settled == s.client.settled && t.client.pending == s.client.pending
  {
    hide SystemInv, Sendable, Do;
    QuietBuffers(s);
    t := EmissionArrives(s, Push(e));
    var u := Do(s, DeviceEmits(Push(e)));
    DoKeepsInv(s, DeviceEmits(Push(e)));
    DoKeepsInv(u, BytesReachClient(|u.toClient|));
  }

  lemma AnswersNorm(req: Request, res: Response)
    ensures Answers(Requests.NormRequest(req), res) <==> Answers(req, res)
  {
  }

  lemma FiveMoves(s: System, moves: seq<Move>)
    requires |moves| == 5
    ensures RunMoves(s, moves) == Do(Do(Do(Do(Do(s, moves[0]), moves[1]), moves[2]), moves[3]), moves[4])
  {
    hide Do;
    var s1 := Do(s, moves[0]);
    var s2 := Do(s1, moves[1]);
    var s3 := Do(s2, moves[2]);
    assert RunMoves(s3, moves[3..]) == Do(Do(s3, moves[3]), moves[4]) by {
      assert moves[3..][1..] == moves[4..] && moves[4..][1..] == [];
      assert RunMoves(Do(s3, moves[3]), moves[4..]) == Do(Do(s3, moves[3]), moves[4]);
    }
    assert moves[1..][1..] == moves[2..] && moves[2..][1..] == moves[3..];
    assert RunMoves(s2, moves[2..]) == RunMoves(s3, moves[3..]);
    assert RunMoves(s1, moves[1..]) == RunMoves(s2, moves[2..]);
  }

  lemma PromiseSettled(c: State, req: Request, m: Emission)
    requires Inv(c) && !c.closed && !req.Connect? && RequestFrame(req, c.nextReqId).Success?
    requires m.Answer? && m.id == c.nextReqId
    ensures var d := HandleEmission(SendStep(c, req), m);
            && d.settled == c.settled + [Settlement(m.id, ReplyOutcome(Reply(m.res, m.errorCode)))]
            && d.pending == c.pending
  {
    hide RequestFrame, SendStep;
    SendEffect(c, req);
  }

  // ---------------------------------------------------------------- what one listener hears

  /** The events one listener was called with, in order. */
  function HeardBy(name: nat, notices: seq<Notice>): seq<Event> {
    if notices == [] then []
    else
      var front, last := notices[..|notices| - 1], notices[|notices| - 1];
      HeardBy(name, front) + if last.listener == name then [last.event] else []
  }

  ghost predicate DistinctNames(listeners: seq<Listener>) {
    forall i, j :: 0 <= i < j < |listeners| ==> listeners[i].name != listeners[j].name
  }

  lemma {:induction false} HeardByAppend(name: nat, xs: seq<Notice>, ys: seq<Notice>)
    ensures HeardBy(name, xs + ys) == HeardBy(name, xs) + HeardBy(name, ys)
    decreases |ys|
  {
    if ys == [] {
      assert xs + ys == xs;
    } else {
      var front := ys[..|ys| - 1];
      assert (xs + ys)[..|xs + ys| - 1] == xs + front;
      HeardByAppend(name, xs, front);
    }
  }

  /** Of notices to the first `k` listeners, a listener hears its own. */
  lemma {:induction false} HeardInPrefix(listeners: seq<Listener>, i: nat, e: Event, k: nat)
    requires DistinctNames(listeners) && i < |listeners| && k <= |listeners|
    ensures HeardBy(listeners[i].name, NoticesOfAll(listeners, e)[..k]) == if i < k then [e] else []
    decreases k
  {
    if k > 0 {
      var notices := NoticesOfAll(listeners, e)[..k];
      assert notices[..|notices| - 1] == NoticesOfAll(listeners, e)[..k - 1];
      assert notices[|notices| - 1] == Notice(listeners[k - 1].name, e);
      HeardInPrefix(listeners, i, e, k - 1);
      if i != k - 1 { assert listeners[i].name != listeners[k - 1].name; }
    }
  }

  lemma NobodyHeard(name: nat)
    ensures HeardBy(name, []) == []
  {
  }

  /** A listener hears all events, in order, exactly if it is reached by each of them. */
  lemma {:induction false} HearsAllIffReached(listeners: seq<Listener>, i: nat, es: seq<Event>)
    requires DistinctNames(listeners) && i < |listeners|
    ensures var heard := HeardBy(listeners[i].name, AllNotices(listeners, es));
            |heard| <= |es| && (heard == es <==> forall e :: e in es ==> i < |Notify(listeners, e)|)
    decreases |es|
  {
    hide DistinctNames, Notify, HeardBy;
    var name := listeners[i].name;
    if es == [] {
      NobodyHeard(name);
    } else {
      var front, e := es[..|es| - 1], es[|es| - 1];
      HearsAllIffReached(listeners, i, front);
      NotifyIsPrefix(listeners, e);
      HeardInPrefix(listeners, i, e, |Notify(listeners, e)|);
      assert NoticesOfAll(listeners, e)[..|Notify(listeners, e)|] == Notify(listeners, e);
      HeardByAppend(name, AllNotices(listeners, front), Notify(listeners, e));
      assert es == front + [e];
      var before, now := HeardBy(name, AllNotices(listeners, front)), HeardBy(name, Notify(listeners, e));
      SplitEqual(before, now, front, [e]);
    }
  }

  lemma SplitEqual<T>(a: seq<T>, b: seq<T>, c: seq<T>, d: seq<T>)
    requires |a| <= |c| && |b| <= |d|
    ensures a + b == c + d <==> a == c && b == d
  {
    if a + b == c + d {
      assert |a| == |c|;
      assert a == (a + b)[..|a|] == c && b == (a + b)[|a|..] == d;
    }
  }

  /** Every listener hears every event, once and in wire order, exactly if none but the last throws on any of them. */
  lemma ListenersHearEveryEventIff(listeners: seq<Listener>, es: seq<Event>)
    requires DistinctNames(listeners)
    ensures (forall l :: l in listeners ==> HeardBy(l.name, AllNotices(listeners, es)) == es)
       <==> forall e :: e in es ==> OnlyLastThrows(listeners, e)
  {
    hide DistinctNames, Notify, HeardBy, AllNotices, OnlyLastThrows;
    if listeners == [] {
      NobodyThrows();
    } else {
      forall e ensures |Notify(listeners, e)| <= |listeners|
               ensures |Notify(listeners, e)| == |listeners| <==> OnlyLastThrows(listeners, e)
      {
        NotifyIsPrefix(listeners, e);
        EveryListenerNotifiedIff(listeners, e);
      }
      forall i | 0 <= i < |listeners|
        ensures HeardBy(listeners[i].name, AllNotices(listeners, es)) == es
           <==> forall e :: e in es ==> i < |Notify(listeners, e)|
      {
        HearsAllIffReached(listeners, i, es);
      }
      assert listeners[|listeners| - 1] in listeners;
    }
  }

  lemma NobodyThrows()
    ensures forall e :: OnlyLastThrows([], e)
  {
  }

  lemma DoKeepsListeners(s: System, a: Move)
    ensures Do(s, a).client.listeners == s.client.listeners
  {
    hide Process, RejectFrom, DecodeFrame, Drain, MayEmit, RequestFrame, Requests.DecodeRequest;
    match a
    case BytesReachClient(n) =>
      if n <= |s.toClient| { ProcessKeepsListeners(s.client.(buf := s.client.buf + s.toClient[..n])); }
    case ClientCloses => RejectFromExtends(s.client.(closed := true), 0);
    case SocketCloses => RejectFromExtends(s.client.(closed := true), 0);
    case _ =>
  }

  lemma {:induction false} RunKeepsListeners(s: System, moves: seq<Move>)
    ensures RunMoves(s, moves).client.listeners == s.client.listeners
    decreases |moves|
  {
    hide Do;
    if moves != [] {
      DoKeepsListeners(s, moves[0]);
      RunKeepsListeners(Do(s, moves[0]), moves[1..]);
    }
  }

  /**
   In every run without timeout and close, once the device's bytes have all arrived: each listener has been called with
   every event that the device pushed, once and in the order of the wire, exactly if none but the last throws on any.
   */
  lemma ListenersHearPushedEventsIff(listeners: seq<Listener>, moves: seq<Move>, s: System)
    requires s == RunMoves(Start(listeners), moves) && !s.disturbed && s.toClient == []
    requires DistinctNames(listeners)
    ensures (forall l :: l in listeners ==> HeardBy(l.name, s.client.notices) == s.pushed)
       <==> forall e :: e in s.pushed ==> OnlyLastThrows(listeners, e)
  {
    hide RunMoves, DistinctNames, HeardBy, AllNotices, OnlyLastThrows;
    DeliveredRunIsComplete(listeners, moves, s);
    RunKeepsListeners(Start(listeners), moves);
    ListenersHearEveryEventIff(listeners, s.pushed);
  }
}

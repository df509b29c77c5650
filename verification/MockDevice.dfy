/**
 The in-process device: it answers the client's handshake and then every complete request frame for whose kind it has
 a handler. Handlers here answer at once; frames and requests that it cannot decode are skipped.
 */
module MockDevice {
  import opened Seqs
  import opened Wrappers
  import opened Bytes
  import opened Messages
  import opened Frame
  import Client
  import Requests = WireRequests
  import Responses = WireResponses

  /** What a handler makes of a request: a response with an error code, or nothing if it throws. */
  datatype Answer = Answer(res: Response, errorCode: nat) | Throws

  /** A handler for each kind of request, named by the kind of response that belongs to it. */
  type Handlers = map<ResponseKind, Request -> Answer>

  const HANDSHAKE_REQUEST := 8

  /** What the device writes for one request frame, as a frame of its own or not at all. */
  function Reply(handlers: Handlers, f: Frame): seq<Frame> {
    match Requests.DecodeRequest(f.payload)
    case Failure(_) => []
    case Success(req) =>
      if req.Connect? || Client.ExpectedKind(req) !in handlers then []
      else
        match handlers[Client.ExpectedKind(req)](req)
        case Throws => []
        case Answer(res, errorCode) =>
          match Responses.EncodeResponse(res, errorCode)
          case Failure(_) => []
          case Success(payload) =>
            if FrameFits(Frame(f.packetType, payload)) then [Frame(f.packetType, payload)] else []
  }

  function Replies(handlers: Handlers, fs: seq<Frame>): seq<Frame> {
    if fs == [] then [] else Reply(handlers, fs[0]) + Replies(handlers, fs[1..])
  }

  lemma {:induction false} RepliesAppend(handlers: Handlers, fs: seq<Frame>, gs: seq<Frame>)
    ensures Replies(handlers, fs + gs) == Replies(handlers, fs) + Replies(handlers, gs)
  {
    hide Reply;
    if fs == [] {
      assert fs + gs == gs;
    } else {
      assert (fs + gs)[1..] == fs[1..] + gs;
      RepliesAppend(handlers, fs[1..], gs);
    }
  }

  // ---------------------------------------------------------------- bytes in, bytes out

  /** What the device does with a chunk: how often it greets, what it writes after that, and what it keeps. */
  datatype Service = Service(greetings: nat, out: Bytes, buf: Bytes, greeted: bool)

  function Serve(handlers: Handlers, buf: Bytes, greeted: bool, chunk: Bytes): Service {
    var all := buf + chunk;
    if !greeted && |all| < HANDSHAKE_REQUEST then Service(0, [], all, false)
    else
      var (fs, rest) := Drain(if greeted then all else all[HANDSHAKE_REQUEST..]);
      Service(if greeted then 0 else 1, FramesBytes(Replies(handlers, fs)), rest, true)
  }

  function ServeAll(handlers: Handlers, buf: Bytes, greeted: bool, chunks: seq<Bytes>): Service
    decreases |chunks|
  {
    if chunks == [] then Service(0, [], buf, greeted)
    else
      var first := Serve(handlers, buf, greeted, chunks[0]);
      var more := ServeAll(handlers, first.buf, first.greeted, chunks[1..]);
      Service(first.greetings + more.greetings, first.out + more.out, more.buf, more.greeted)
  }

  /** Between chunks nothing that could be handled is left in the buffer. */
  predicate Settled(buf: Bytes, greeted: bool) {
    if greeted then DecodeFrame(buf) == None else |buf| < HANDSHAKE_REQUEST
  }

  lemma ServeSettles(handlers: Handlers, buf: Bytes, greeted: bool, chunk: Bytes)
    ensures Settled(Serve(handlers, buf, greeted, chunk).buf, Serve(handlers, buf, greeted, chunk).greeted)
  {
    hide DecodeFrame, Drain;
    var all := buf + chunk;
    if greeted {
      DrainLeavesNone(all);
    } else if |all| >= HANDSHAKE_REQUEST {
      DrainLeavesNone(all[HANDSHAKE_REQUEST..]);
    }
  }

  /** Two chunks, one after the other, have the effect of both at once. */
  lemma ServeAppend(handlers: Handlers, buf: Bytes, greeted: bool, a: Bytes, b: Bytes)
    ensures var first := Serve(handlers, buf, greeted, a);
            var more := Serve(handlers, first.buf, first.greeted, b);
            Serve(handlers, buf, greeted, a + b)
            == Service(first.greetings + more.greetings, first.out + more.out, more.buf, more.greeted)
  {
    hide DecodeFrame, Drain, Replies, FrameBytes;
    var all := buf + a;
    assert buf + (a + b) == all + b;
    if !greeted && |all| < HANDSHAKE_REQUEST {
      assert forall out: Bytes :: [] + out == out;
    } else {
      var start := if greeted then all else all[HANDSHAKE_REQUEST..];
      assert (if greeted then all + b else (all + b)[HANDSHAKE_REQUEST..]) == start + b;
      DrainAppend(start, b);
      var (fs, rest) := Drain(start);
      var (gs, _) := Drain(rest + b);
      RepliesAppend(handlers, fs, gs);
      EncodeAllAppend(FrameBytes, Replies(handlers, fs), Replies(handlers, gs));
    }
  }

  /** However the client's bytes are cut, the device greets at most once, as often, and writes the same answers. */
  lemma {:induction false} DeviceChunkingIrrelevant(handlers: Handlers, buf: Bytes, greeted: bool, chunks: seq<Bytes>)
    requires Settled(buf, greeted)
    ensures ServeAll(handlers, buf, greeted, chunks) == Serve(handlers, buf, greeted, Concat(chunks))
    ensures ServeAll(handlers, buf, greeted, chunks).greetings <= 1
    decreases |chunks|
  {
    hide DecodeFrame;
    if chunks == [] {
      assert buf + [] == buf;
      NothingToDrain(buf);
    } else {
      hide Serve, Settled;
      var first := Serve(handlers, buf, greeted, chunks[0]);
      ServeSettles(handlers, buf, greeted, chunks[0]);
      DeviceChunkingIrrelevant(handlers, first.buf, first.greeted, chunks[1..]);
      ServeAppend(handlers, buf, greeted, chunks[0], Concat(chunks[1..]));
    }
  }

  lemma NothingToDrain(buf: Bytes)
    ensures DecodeFrame(buf) == None ==> Drain(buf) == ([], buf)
  {
  }

  /** A client's handshake and then a stream of request frames: one greeting, and the answer to every frame in turn. */
  lemma StreamServed(handlers: Handlers, hello: Bytes, fs: seq<Frame>, chunks: seq<Bytes>)
    requires |hello| == 8 && (forall f :: f in fs ==> FrameFits(f)) && Concat(chunks) == hello + FramesBytes(fs)
    ensures ServeAll(handlers, [], false, chunks) == Service(1, FramesBytes(Replies(handlers, fs)), [], true)
  {
    hide DecodeFrame, Drain, Replies, FrameBytes;
    DeviceChunkingIrrelevant(handlers, [], false, chunks);
    var all := [] + Concat(chunks);
    assert all[8..] == FramesBytes(fs);
    FramesDrain(fs);
  }

  lemma FramesDrain(fs: seq<Frame>)
    requires forall f :: f in fs ==> FrameFits(f)
    ensures Drain(FramesBytes(fs)) == (fs, [])
  {
    hide FrameBytes, DecodeFrame;
    var all := FramesBytes(fs);
    ConcatOne(all);
    StreamRecovered(fs, [all]);
    DrainEmptyOnce(all);
  }

  lemma DrainEmptyOnce(all: Bytes)
    ensures Receive([], [all]) == Drain(all)
  {
    hide Drain;
    assert [] + all == all;
    var (fs, rest) := Drain(all);
    assert Receive(rest, [all][1..]) == ([], rest);
    assert fs + [] == fs;
  }

  // ---------------------------------------------------------------- the greeting

  /** What the device writes when it has seen a client's handshake: version, eight bytes to follow, and the time. */
  function Greeting(v: Version, now: int): Bytes {
    MAGIC + [0] + U32Bytes(v.major) + U32Bytes(v.minor) + U32Bytes(v.patch) + U32Bytes(8) + I64Bytes(now)
  }

  lemma WordOfField(buf: Bytes, i: nat, n: int)
    requires At(buf, i, U32Bytes(n)) && IsU32(n)
    ensures i + 4 <= |buf| && WordAt(buf, i) == n
  {
    hide U32Bytes;
    AtU32(buf, i, n);
    FourBytesRead(buf, i);
  }

  lemma GreetingFields(v: Version, now: int)
    requires IsU32(v.major) && IsU32(v.minor) && IsU32(v.patch)
    ensures var g := Greeting(v, now);
            && |g| == 32 && g[..8] == MAGIC + [0] && At(g, 24, I64Bytes(now))
            && WordAt(g, 8) == v.major && WordAt(g, 12) == v.minor && WordAt(g, 16) == v.patch && WordAt(g, 20) == 8
  {
    hide U32Bytes, I64Bytes, WordAt;
    var g := Greeting(v, now);
    assert At(g, 8, U32Bytes(v.major)) && At(g, 12, U32Bytes(v.minor)) && At(g, 16, U32Bytes(v.patch));
    assert At(g, 20, U32Bytes(8)) && At(g, 24, I64Bytes(now));
    WordOfField(g, 8, v.major);
    WordOfField(g, 12, v.minor);
    WordOfField(g, 16, v.patch);
    WordOfField(g, 20, 8);
  }

  lemma TimeOf(g: Bytes, now: int)
    requires |g| == 32 && At(g, 24, I64Bytes(now)) && 0 <= now < I64_LIMIT
    ensures WordAt(g, 24) + 4294967296 * WordAt(g, 28) == now
  {
    hide I64Bytes, FromLE;
    AtI64(g, 24, now);
    FromLEOfI64(g, now);
    StampIs(g);
  }

  lemma FromLEOfI64(g: Bytes, now: int)
    requires |g| == 32 && ReadI64(g, 24) == Ok(now, 32) && now >= 0
    ensures FromLE(g[24..32]) == now
  {
    hide FromLE;
    EightBytesRead(g, 24);
    FourBytesRead(g, 24);
    FourBytesRead(g, 28);
    StampIs(g);
  }

  /**
   The client reads the device's version and time from the greeting. From version 3 on the greeting ends with it; of an
   older version it takes the first twenty bytes only.
   */
  lemma GreetingDecodes(v: Version, now: int)
    requires IsU32(v.major) && IsU32(v.minor) && IsU32(v.patch) && 0 <= now < I64_LIMIT
    ensures DecodeHandshake(Greeting(v, now))
         == Some(if v.major < 3 then Handshake(v.major, v.minor, v.patch, None, 20)
                 else Handshake(v.major, v.minor, v.patch, Some(now), 32))
  {
    hide DecodeHandshake, Greeting, WordAt;
    var g := Greeting(v, now);
    GreetingFields(v, now);
    TimeOf(g, now);
    var h := if v.major < 3 then Handshake(v.major, v.minor, v.patch, None, 20)
             else Handshake(v.major, v.minor, v.patch, Some(now), 32);
    DecodeHandshakeIff(g, h);
  }

  /** However the greeting is cut into chunks, the client reads it, and from version 3 on drops nothing. */
  lemma GreetingRead(v: Version, now: int, chunks: seq<Bytes>) returns (n: nat)
    requires IsU32(v.major) && IsU32(v.minor) && IsU32(v.patch) && 0 <= now < I64_LIMIT && v.major >= 3
    requires Concat(chunks) == Greeting(v, now)
    ensures ReadHandshake([], chunks) == Some((Handshake(v.major, v.minor, v.patch, Some(now), 32), n, []))
    ensures 1 <= n <= |chunks| && Concat(chunks[n..]) == []
  {
    hide DecodeHandshake, Greeting;
    GreetingDecodes(v, now);
    assert |Greeting(v, now)| == 32 by { GreetingFields(v, now); }
    assert [] + Concat(chunks) == Concat(chunks) && chunks[..|chunks|] == chunks;
    RecognisedInFirstPrefix([], chunks);
    HandshakeAccount([], chunks);
    var r := ReadHandshake([], chunks).value;
    n := r.1;
    assert (r.2 + Concat(chunks[n..])) == [];
    assert |r.2| + |Concat(chunks[n..])| == 0;
  }

  // ---------------------------------------------------------------- one exchange

  /**
   A request that the client can encode is heard in normal form, and what its handler answers is read back by the
   client, under the same id, as the normal form of the answer.
   */
  lemma OneExchange(handlers: Handlers, id: nat, req: Request)
    requires Requests.EncodeRequest(req).Success?
    ensures !req.Connect? && Client.ExpectedKind(Requests.NormRequest(req)) == Client.ExpectedKind(req)
    ensures var replies := Reply(handlers, Frame(id, Requests.EncodeRequest(req).value));
            var kind := Client.ExpectedKind(req);
            if kind !in handlers then replies == []
            else
              match handlers[kind](Requests.NormRequest(req))
              case Throws => replies == []
              case Answer(res, errorCode) =>
                && var encoded := Responses.EncodeResponse(res, errorCode);
                && (replies == [] <==> encoded.Failure? || !FrameFits(Frame(id, encoded.value)))
                && (replies != [] ==>
                      && |replies| == 1 && replies[0].packetType == id
                      && (res.Kind() == kind ==>
                            Responses.DecodeResponse(kind, replies[0].payload)
                            == Success((Responses.NormResponse(res), errorCode))))
  {
    hide Requests.DecodeRequest, Responses.EncodeResponse, Responses.DecodeResponse, FrameFits, Responses.NormResponse;
    Requests.RequestRoundTrip(req);
    var kind := Client.ExpectedKind(req);
    if kind in handlers {
      match handlers[kind](Requests.NormRequest(req))
      case Throws =>
      case Answer(res, errorCode) =>
        if Responses.EncodeResponse(res, errorCode).Success? { Responses.ResponseRoundTrip(res, errorCode); }
    }
  }

  // ---------------------------------------------------------------- the device as it runs

  class MockDevice {
    var recvBuf: Bytes
    var handshakeDone: bool
    var handlers: Handlers

    constructor ()
      ensures Valid() && recvBuf == [] && !handshakeDone && handlers == map[]
    {
      recvBuf, handshakeDone, handlers := [], false, map[];
    }

    predicate Valid() reads this { Settled(recvBuf, handshakeDone) }

    /** Replaces the handler of one kind of request. */
    method OnRequest(kind: ResponseKind, handler: Request -> Answer)
      requires Valid()
      modifies this`handlers
      ensures Valid() && handlers == old(handlers)[kind := handler]
    {
      handlers := handlers[kind := handler];
    }

    /** Takes the handshake request off the front, once, and then handles every complete frame. */
    method OnData(chunk: Bytes) returns (greets: bool, out: Bytes)
      requires Valid()
      modifies this`recvBuf, this`handshakeDone
      ensures Valid()
      ensures Service(if greets then 1 else 0, out, recvBuf, handshakeDone)
           == Serve(handlers, old(recvBuf), old(handshakeDone), chunk)
    {
      hide DecodeFrame, FrameBytes, Reply;
      ServeSettles(handlers, recvBuf, handshakeDone, chunk);
      recvBuf := recvBuf + chunk;
      greets, out := false, [];
      if !handshakeDone {
        if |recvBuf| < HANDSHAKE_REQUEST { return; }
        recvBuf := recvBuf[HANDSHAKE_REQUEST..];
        greets, handshakeDone := true, true;
      }
      ghost var start, done: seq<Frame> := recvBuf, [];
      assert done + Drain(start).0 == Drain(start).0;
      while true
        invariant handshakeDone && handlers == old(handlers)
        invariant Drain(start) == (done + Drain(recvBuf).0, Drain(recvBuf).1)
        invariant out == FramesBytes(Replies(handlers, done))
        decreases |recvBuf|
      {
        var next := DecodeFrame(recvBuf);
        if next.None? { break; }
        var (frame, consumed) := next.value;
        assert Drain(recvBuf).0 == [frame] + Drain(recvBuf[consumed..]).0;
        assert done + ([frame] + Drain(recvBuf[consumed..]).0) == (done + [frame]) + Drain(recvBuf[consumed..]).0;
        recvBuf := recvBuf[consumed..];
        RepliesSnoc(handlers, done, frame);
        var replies := Reply(handlers, frame);
        if replies != [] { out := out + FrameBytes(replies[0]); }
        done := done + [frame];
      }
      NothingToDrain(recvBuf);
      assert done + [] == done;
    }
  }

  lemma RepliesSnoc(handlers: Handlers, done: seq<Frame>, f: Frame)
    ensures |Reply(handlers, f)| <= 1
    ensures FramesBytes(Replies(handlers, done + [f]))
         == FramesBytes(Replies(handlers, done))
            + if Reply(handlers, f) == [] then [] else FrameBytes(Reply(handlers, f)[0])
  {
    hide FrameBytes;
    RepliesAppend(handlers, done, [f]);
    assert [f][1..] == [];
    assert Replies(handlers, [f]) == Reply(handlers, f) by {
      assert Replies(handlers, []) == [];
      assert Reply(handlers, f) + [] == Reply(handlers, f);
    }
    EncodeAllAppend(FrameBytes, Replies(handlers, done), Reply(handlers, f));
    OneFrame(Reply(handlers, f));
  }

  lemma OneFrame(fs: seq<Frame>)
    requires |fs| <= 1
    ensures FramesBytes(fs) == if fs == [] then [] else FrameBytes(fs[0])
  {
    if fs != [] {
      assert EncodeAll(FrameBytes, fs[1..]) == [];
      assert FrameBytes(fs[0]) + [] == FrameBytes(fs[0]);
    }
  }
}

/**
 Length-prefixed frames: `[packet_length:4][packetType:4][payload...]`, where the length counts itself.
 */
module Frame {
  import opened Seqs
  import opened Wrappers
  import opened Bytes

  datatype Frame = Frame(packetType: nat, payload: Bytes)

  const HEADER := 8

  predicate FrameFits(f: Frame) { IsU32(f.packetType) && IsU32(HEADER + |f.payload|) }

  function FrameBytes(f: Frame): (bs: Bytes)
    ensures |bs| == HEADER + |f.payload|
  {
    U32Bytes(HEADER + |f.payload|) + U32Bytes(f.packetType) + f.payload
  }

  function EncodeFrame(packetType: nat, payload: Bytes): Result<Bytes> {
    var f := Frame(packetType, payload);
    if FrameFits(f) then Success(FrameBytes(f)) else Failure(OutOfRange)
  }

  /** Writes `src` over the bytes of `buf` from `at` on, and leaves the others. */
  method CopyInto(src: Bytes, buf: array<byte>, at: nat)
    requires at + |src| <= buf.Length
    modifies buf
    ensures buf[..at] == old(buf[..at]) && buf[at..at + |src|] == src
    ensures buf[at + |src|..] == old(buf[at + |src|..])
  {
    for i := 0 to |src|
      invariant forall k :: 0 <= k < i ==> buf[at + k] == src[k]
      invariant forall j :: 0 <= j < at || at + i <= j < buf.Length ==> buf[j] == old(buf[j])
    {
      buf[at + i] := src[i];
    }
  }

  /** Fills a freshly allocated buffer field by field, as the encoder does. */
  method WriteFrame(packetType: nat, payload: Bytes) returns (buf: array<byte>)
    requires FrameFits(Frame(packetType, payload))
    ensures fresh(buf) && buf[..] == FrameBytes(Frame(packetType, payload))
  {
    var totalLength := HEADER + |payload|;
    buf := new byte[totalLength](_ => 0);
    hide U32Bytes;
    var length, tag := U32Bytes(totalLength), U32Bytes(packetType);
    CopyInto(length, buf, 0);
    CopyInto(tag, buf, 4);
    CopyInto(payload, buf, HEADER);
    assert buf[..] == buf[..4] + buf[4..8] + buf[8..];
  }

  /** The packet length at the front of `buf`. */
  function PacketLength(buf: Bytes): nat
    requires |buf| >= 4
  {
    FromLE(buf[..4])
  }

  /** A frame at the front of `buf` and the number of bytes it occupies, or None to wait for more. */
  function DecodeFrame(buf: Bytes): (r: Option<(Frame, nat)>)
    ensures r.Some? ==> HEADER <= r.value.1 <= |buf| && r.value.1 == HEADER + |r.value.0.payload|
  {
    if |buf| < 4 then None
    else
      var n := PacketLength(buf);
      if |buf| < n || n < HEADER then None
      else Some((Frame(FromLE(buf[4..8]), buf[8..n]), n))
  }

  // ---------------------------------------------------------------- one frame

  /** The number that the four bytes at an offset stand for. */
  function WordAt(buf: Bytes, i: nat): int
    requires i + 4 <= |buf|
  {
    Word(buf[i], buf[i + 1], buf[i + 2], buf[i + 3])
  }

  lemma WordAtIs(buf: Bytes, i: nat)
    requires i + 4 <= |buf|
    ensures FromLE(buf[i..i + 4]) == WordAt(buf, i)
  {
    FourBytesRead(buf, i);
  }

  /** A frame is decoded exactly if there is one in full: its length, which counts itself, its tag and the rest. */
  lemma DecodeFrameIff(buf: Bytes, f: Frame, consumed: nat)
    ensures DecodeFrame(buf) == Some((f, consumed))
       <==> && |buf| >= 8 && consumed == WordAt(buf, 0) && 8 <= consumed <= |buf|
            && f.packetType == WordAt(buf, 4) && f.payload == buf[8..consumed]
  {
    hide FromLE, WordAt;
    if |buf| >= 4 { WordAtIs(buf, 0); }
    if |buf| >= 8 { WordAtIs(buf, 4); }
  }

  /** A frame is written unless its tag or its length is too large: length, tag and payload. */
  lemma EncodeFrameIff(packetType: nat, payload: Bytes)
    ensures EncodeFrame(packetType, payload)
         == if packetType <= 4294967295 && 8 + |payload| <= 4294967295
            then Success(U32Bytes(8 + |payload|) + U32Bytes(packetType) + payload)
            else Failure(OutOfRange)
  {
  }

  lemma FrameRoundTrip(f: Frame, rest: Bytes)
    requires FrameFits(f)
    ensures DecodeFrame(FrameBytes(f) + rest) == Some((f, |FrameBytes(f)|))
  {
    hide U32Bytes, FromLE;
    var buf := FrameBytes(f) + rest;
    assert buf[..4] == U32Bytes(HEADER + |f.payload|) && buf[4..8] == U32Bytes(f.packetType);
    assert buf[8..|FrameBytes(f)|] == f.payload;
    U32Value(HEADER + |f.payload|);
    U32Value(f.packetType);
  }

  /** A frame that was decoded is decoded again, unchanged, when more bytes have arrived behind it. */
  lemma DecodeFramePrefixStable(buf: Bytes, more: Bytes)
    requires DecodeFrame(buf).Some?
    ensures DecodeFrame(buf + more) == DecodeFrame(buf)
  {
    var n := PacketLength(buf);
    assert (buf + more)[..4] == buf[..4] && (buf + more)[4..8] == buf[4..8] && (buf + more)[8..n] == buf[8..n];
  }

  /** The buffer announces a frame shorter than its own header. */
  predicate Stuck(buf: Bytes) { |buf| >= 4 && PacketLength(buf) < HEADER }

  lemma ShortLengthBlocks(buf: Bytes, more: Bytes)
    requires Stuck(buf)
    ensures DecodeFrame(buf + more) == None && Stuck(buf + more)
  {
    assert (buf + more)[..4] == buf[..4];
  }

  function Fill(n: nat, b: byte): (bs: Bytes)
    ensures |bs| == n && forall i :: 0 <= i < n ==> bs[i] == b
  {
    seq(n, _ => b)
  }

  lemma {:induction false} FromLEAtLeastLast(bs: Bytes)
    requires bs != []
    ensures FromLE(bs) >= bs[|bs| - 1]
  {
    if |bs| > 1 { FromLEAtLeastLast(bs[1..]); }
  }

  /** Bytes that complete a frame: 255s up to the end of the length, and then as many bytes as it announces. */
  lemma Completion(buf: Bytes) returns (more: Bytes)
    requires !Stuck(buf)
    ensures DecodeFrame(buf + more).Some?
  {
    var filling := if |buf| < 4 then Fill(4 - |buf|, 255) else [];
    var long := buf + filling;
    if |buf| < 4 {
      assert long[..4] == long && long[3] == 255;
      FromLEAtLeastLast(long);
    } else {
      assert long == buf;
    }
    var n := PacketLength(long);
    more := filling + Fill(n, 0);
    assert buf + more == long + Fill(n, 0);
    assert (buf + more)[..4] == long[..4];
  }

  /** An incomplete buffer can be completed to a frame, unless it announces a frame that is too short. */
  lemma NeverCompletedIffStuck(buf: Bytes)
    requires DecodeFrame(buf) == None
    ensures (forall more :: DecodeFrame(buf + more) == None) <==> Stuck(buf)
  {
    if Stuck(buf) {
      forall more ensures DecodeFrame(buf + more) == None { ShortLengthBlocks(buf, more); }
    } else {
      var more := Completion(buf);
      assert DecodeFrame(buf + more) != None;
    }
  }

  /** Four zeros are such a buffer. */
  lemma ZeroLengthIsStuck()
    ensures DecodeFrame(Fill(4, 0)) == None && Stuck(Fill(4, 0))
  {
    assert Fill(4, 0)[..4] == Fill(4, 0);
    ZeroLE();
  }

  // ---------------------------------------------------------------- draining a buffer

  /** The frames at the front of `buf`, in order, and the bytes left over. */
  function Drain(buf: Bytes): (seq<Frame>, Bytes)
    decreases |buf|
  {
    match DecodeFrame(buf)
    case None => ([], buf)
    case Some((f, consumed)) =>
      var (fs, rest) := Drain(buf[consumed..]);
      ([f] + fs, rest)
  }

  /** Draining what is left over together with the next chunk is draining both at once. */
  lemma {:induction false} DrainAppend(buf: Bytes, chunk: Bytes)
    ensures var (fs, rest) := Drain(buf);
            var (gs, rest') := Drain(rest + chunk);
            Drain(buf + chunk) == (fs + gs, rest')
    decreases |buf|
  {
    match DecodeFrame(buf)
    case None =>
      assert [] + Drain(buf + chunk).0 == Drain(buf + chunk).0;
    case Some((f, consumed)) =>
      DecodeFramePrefixStable(buf, chunk);
      assert (buf + chunk)[consumed..] == buf[consumed..] + chunk;
      DrainAppend(buf[consumed..], chunk);
      var (fs, rest) := Drain(buf[consumed..]);
      assert [f] + (fs + Drain(rest + chunk).0) == ([f] + fs) + Drain(rest + chunk).0;
  }

  /** What a receiver holds after the chunks: every frame so far and the bytes of an incomplete one. */
  function Receive(buf: Bytes, chunks: seq<Bytes>): (seq<Frame>, Bytes)
    decreases |chunks|
  {
    if chunks == [] then ([], buf)
    else
      var (fs, rest) := Drain(buf + chunks[0]);
      var (gs, rest') := Receive(rest, chunks[1..]);
      (fs + gs, rest')
  }

  /** However the bytes are cut into chunks, the same frames come out and the same bytes are left over. */
  lemma {:induction false} ChunkingIrrelevant(buf: Bytes, chunks: seq<Bytes>)
    requires DecodeFrame(buf) == None
    ensures Receive(buf, chunks) == Drain(buf + Concat(chunks))
    decreases |chunks|
  {
    hide DecodeFrame;
    if chunks == [] {
      assert buf + [] == buf;
    } else {
      hide Drain;
      var (fs, rest) := Drain(buf + chunks[0]);
      DrainLeavesNone(buf + chunks[0]);
      ChunkingIrrelevant(rest, chunks[1..]);
      DrainAppend(buf + chunks[0], Concat(chunks[1..]));
      assert buf + chunks[0] + Concat(chunks[1..]) == buf + Concat(chunks);
    }
  }

  lemma {:induction false} DrainLeavesNone(buf: Bytes)
    ensures DecodeFrame(Drain(buf).1) == None
    decreases |buf|
  {
    match DecodeFrame(buf)
    case None =>
    case Some((_, consumed)) => DrainLeavesNone(buf[consumed..]);
  }

  lemma {:induction false} StuckKeepsAll(buf: Bytes, chunks: seq<Bytes>)
    requires Stuck(buf)
    ensures Receive(buf, chunks) == ([], buf + Concat(chunks))
    decreases |chunks|
  {
    if chunks == [] {
      assert buf + [] == buf;
    } else {
      ShortLengthBlocks(buf, chunks[0]);
      assert Drain(buf + chunks[0]) == ([], buf + chunks[0]);
      StuckKeepsAll(buf + chunks[0], chunks[1..]);
      assert buf + chunks[0] + Concat(chunks[1..]) == buf + Concat(chunks);
      assert Receive(buf, chunks).0 == [] + Receive(buf + chunks[0], chunks[1..]).0;
    }
  }

  lemma ConcatOne(chunk: Bytes)
    ensures Concat([chunk]) == chunk
  {
    assert Concat([chunk][1..]) == [];
  }

  /** A receiver will never see another frame, whatever chunks arrive, exactly if its left-over bytes are stuck. */
  lemma DeafIffStuck(buf: Bytes)
    requires DecodeFrame(buf) == None
    ensures (forall chunks :: Receive(buf, chunks).0 == []) <==> Stuck(buf)
  {
    if Stuck(buf) {
      forall chunks ensures Receive(buf, chunks).0 == [] { StuckKeepsAll(buf, chunks); }
    } else {
      var more := Completion(buf);
      ChunkingIrrelevant(buf, [more]);
      ConcatOne(more);
      assert Receive(buf, [more]).0 != [];
    }
  }

  // ---------------------------------------------------------------- a stream of encoded frames

  function FramesBytes(fs: seq<Frame>): Bytes { EncodeAll(FrameBytes, fs) }

  /**
   Any prefix of a stream of encoded frames drains to the first of these frames, exactly as sent, and what is
   left over is the front of the remaining stream.
   */
  lemma {:induction false} DrainPrefix(fs: seq<Frame>, got: Bytes, coming: Bytes) returns (k: nat)
    requires forall f :: f in fs ==> FrameFits(f)
    requires got + coming == FramesBytes(fs)
    ensures k <= |fs| && Drain(got).0 == fs[..k] && Drain(got).1 + coming == FramesBytes(fs[k..])
    decreases |got|
  {
    hide DecodeFrame, FrameBytes;
    k := 0;
    if fs == [] {
      assert got == [] && DecodeFrame([]) == None;
    } else if |got| < |FrameBytes(fs[0])| {
      PartialFrame(fs[0], FramesBytes(fs[1..]), got, coming);
    } else {
      var got' := CompleteFrame(fs[0], FramesBytes(fs[1..]), got, coming);
      var k' := DrainPrefix(fs[1..], got', coming);
      k := k' + 1;
      assert fs[..k] == [fs[0]] + fs[1..][..k'] && fs[1..][k'..] == fs[k..];
    }
  }

  lemma CompleteFrame(f: Frame, tail: Bytes, got: Bytes, coming: Bytes) returns (rest: Bytes)
    requires FrameFits(f) && got + coming == FrameBytes(f) + tail && |got| >= |FrameBytes(f)|
    ensures DecodeFrame(got) == Some((f, |FrameBytes(f)|)) && rest == got[|FrameBytes(f)|..]
    ensures rest + coming == tail
  {
    hide DecodeFrame, FrameBytes;
    var first := FrameBytes(f);
    rest := got[|first|..];
    assert got[..|first|] == (got + coming)[..|first|] == first;
    assert got == first + rest;
    assert tail == (got + coming)[|first|..] == rest + coming;
    FrameRoundTrip(f, rest);
  }

  /** An incomplete frame yields nothing. */
  lemma PartialFrame(f: Frame, tail: Bytes, got: Bytes, coming: Bytes)
    requires FrameFits(f) && got + coming == FrameBytes(f) + tail && |got| < |FrameBytes(f)|
    ensures DecodeFrame(got) == None
  {
    hide FrameBytes;
    if DecodeFrame(got).Some? {
      DecodeFramePrefixStable(got, coming);
      FrameRoundTrip(f, tail);
    }
  }

  /** A whole stream of encoded frames is recovered exactly, however it is cut into chunks. */
  lemma StreamRecovered(fs: seq<Frame>, chunks: seq<Bytes>)
    requires forall f :: f in fs ==> FrameFits(f)
    requires Concat(chunks) == FramesBytes(fs)
    ensures Receive([], chunks) == (fs, [])
  {
    ChunkingIrrelevant([], chunks);
    assert [] + Concat(chunks) == FramesBytes(fs) + [];
    var k := DrainPrefix(fs, FramesBytes(fs), []);
    DrainLeavesNone(FramesBytes(fs));
    if k < |fs| {
      var rest := FramesBytes(fs[k..]);
      assert Drain(FramesBytes(fs)).1 + [] == Drain(FramesBytes(fs)).1;
      FrameRoundTrip(fs[k], FramesBytes(fs[k..][1..]));
      assert false;
    }
    assert fs[..k] == fs && fs[k..] == [];
  }

  // ---------------------------------------------------------------- handshake

  const MAGIC: Bytes := [98, 115, 100, 101, 98, 117, 103]  // "bsdebug"

  datatype Handshake =
    Handshake(major: nat, minor: nat, patch: nat, revisionTimestamp: Option<nat>, consumed: nat)

  function DecodeHandshake(buf: Bytes): (r: Option<Handshake>)
    ensures r.Some? ==> 20 <= r.value.consumed <= |buf|
  {
    if |buf| < 20 || FindNul(buf, 0) != Some(7) || buf[..7] != MAGIC then None
    else
      var major, minor, patch := FromLE(buf[8..12]), FromLE(buf[12..16]), FromLE(buf[16..20]);
      if major < 3 then Some(Handshake(major, minor, patch, None, 20))
      else if |buf| < 24 then None
      else
        var remaining := FromLE(buf[20..24]);
        if |buf| < 24 + remaining || remaining < 8 then None
        else Some(Handshake(major, minor, patch, Some(FromLE(buf[24..32])), 24 + remaining))
  }

  /**
   What a handshake is: "bsdebug" and a NUL, three numbers, and from major version 3 on the length of what follows and
   a timestamp of eight bytes at its front. Anything else, and anything cut short, is no handshake.
   */
  predicate IsHandshake(buf: Bytes, h: Handshake) {
    && |buf| >= 20 && buf[..8] == [98, 115, 100, 101, 98, 117, 103, 0]
    && h.major == WordAt(buf, 8) && h.minor == WordAt(buf, 12) && h.patch == WordAt(buf, 16)
    && if h.major < 3 then h.revisionTimestamp == None && h.consumed == 20
       else
         && |buf| >= 32 && WordAt(buf, 20) >= 8 && h.consumed == 24 + WordAt(buf, 20) <= |buf|
         && h.revisionTimestamp == Some(WordAt(buf, 24) + 4294967296 * WordAt(buf, 28))
  }

  lemma MagicIff(buf: Bytes)
    requires |buf| >= 20
    ensures FindNul(buf, 0) == Some(7) && buf[..7] == MAGIC <==> buf[..8] == [98, 115, 100, 101, 98, 117, 103, 0]
  {
    if buf[..8] == [98, 115, 100, 101, 98, 117, 103, 0] {
      assert forall i :: 0 <= i < 8 ==> buf[i] == buf[..8][i];
      FindNulIs(buf, 0, 7);
    }
    if buf[..7] == MAGIC { assert buf[..8] == buf[..7] + [buf[7]]; }
  }

  lemma StampIs(buf: Bytes)
    requires |buf| >= 32
    ensures FromLE(buf[24..32]) == WordAt(buf, 24) + 4294967296 * WordAt(buf, 28)
  {
    hide FromLE;
    WordAtIs(buf, 24);
    WordAtIs(buf, 28);
    FromLESplit(buf[24..28], buf[28..32]);
    Pow256Values();
    assert buf[24..32] == buf[24..28] + buf[28..32];
  }

  /** A handshake is decoded exactly if there is one, and to the numbers that it holds. */
  lemma DecodeHandshakeIff(buf: Bytes, h: Handshake)
    ensures DecodeHandshake(buf) == Some(h) <==> IsHandshake(buf, h)
  {
    hide FromLE, FindNul, WordAt;
    if |buf| >= 20 {
      MagicIff(buf);
      WordAtIs(buf, 8);
      WordAtIs(buf, 12);
      WordAtIs(buf, 16);
      if |buf| >= 24 { WordAtIs(buf, 20); }
      if |buf| >= 32 { StampIs(buf); }
    }
  }

  /** A handshake that was recognised is recognised again, unchanged, with more bytes behind it. */
  lemma HandshakePrefixStable(buf: Bytes, more: Bytes)
    requires DecodeHandshake(buf).Some?
    ensures DecodeHandshake(buf + more) == DecodeHandshake(buf)
  {
    var all := buf + more;
    assert all[..7] == buf[..7] && all[8..12] == buf[8..12] && all[12..16] == buf[12..16];
    assert all[16..20] == buf[16..20];
    assert forall i :: 0 <= i < 20 ==> all[i] == buf[i];
    assert forall i :: 0 <= i < 7 ==> buf[i] == buf[0..7][i];
    FindNulIs(all, 0, 7);
    if FromLE(buf[8..12]) >= 3 {
      assert all[20..24] == buf[20..24] && all[24..32] == buf[24..32];
    }
  }

  /**
   Collects chunks until the handshake is complete. Yields the handshake, the number of chunks used and what
   those chunks held behind the handshake, which nobody reads again.
   */
  function ReadHandshake(acc: Bytes, chunks: seq<Bytes>): Option<(Handshake, nat, Bytes)>
    decreases |chunks|
  {
    if chunks == [] then None
    else
      var acc' := acc + chunks[0];
      match DecodeHandshake(acc')
      case Some(h) => Some((h, 1, acc'[h.consumed..]))
      case None =>
        match ReadHandshake(acc', chunks[1..])
        case None => None
        case Some((h, n, dropped)) => Some((h, n + 1, dropped))
  }

  /** What the frame reader gets to see of the stream that follows the handshake. */
  function AfterHandshake(chunks: seq<Bytes>): Bytes {
    match ReadHandshake([], chunks)
    case None => []
    case Some((_, n, _)) => if n <= |chunks| then Concat(chunks[n..]) else []
  }

  lemma {:induction false} HandshakeAccount(acc: Bytes, chunks: seq<Bytes>)
    ensures match ReadHandshake(acc, chunks)
            case None => true
            case Some((h, n, dropped)) =>
              && 1 <= n <= |chunks|
              && h.consumed <= |acc + Concat(chunks)|
              && (acc + Concat(chunks))[h.consumed..] == dropped + Concat(chunks[n..])
              && DecodeHandshake(acc + Concat(chunks)) == Some(h)
    decreases |chunks|
  {
    if chunks != [] {
      var acc', more := acc + chunks[0], Concat(chunks[1..]);
      assert acc + Concat(chunks) == acc' + more;
      match DecodeHandshake(acc')
      case Some(h) =>
        HandshakePrefixStable(acc', more);
        assert (acc' + more)[h.consumed..] == acc'[h.consumed..] + more;
      case None =>
        HandshakeAccount(acc', chunks[1..]);
        match ReadHandshake(acc', chunks[1..])
        case None =>
        case Some((_, n, _)) => assert chunks[1..][n..] == chunks[n + 1..];
    }
  }

  /** The handshake is recognised in the first prefix of the chunks that holds it, and if in none, then not at all. */
  lemma {:induction false} RecognisedInFirstPrefix(acc: Bytes, chunks: seq<Bytes>)
    ensures match ReadHandshake(acc, chunks)
            case None => forall j :: 1 <= j <= |chunks| ==> DecodeHandshake(acc + Concat(chunks[..j])) == None
            case Some((h, n, _)) =>
              && 1 <= n <= |chunks| && DecodeHandshake(acc + Concat(chunks[..n])) == Some(h)
              && forall j :: 1 <= j < n ==> DecodeHandshake(acc + Concat(chunks[..j])) == None
    decreases |chunks|
  {
    hide DecodeHandshake;
    if chunks != [] {
      var acc', tail := acc + chunks[0], chunks[1..];
      RecognisedInFirstPrefix(acc', tail);
      forall j | 1 <= j <= |chunks|
        ensures acc + Concat(chunks[..j]) == acc' + Concat(tail[..j - 1])
      {
        assert chunks[..j][1..] == tail[..j - 1];
      }
      assert acc' + Concat(tail[..0]) == acc';
      assert forall j :: 1 < j <= |chunks| ==>
        DecodeHandshake(acc + Concat(chunks[..j])) == DecodeHandshake(acc' + Concat(tail[..j - 1]));
    }
  }

  /** A handshake is recognised in its own bytes alone. */
  lemma HandshakeCut(buf: Bytes)
    requires DecodeHandshake(buf).Some?
    ensures var cut := buf[..DecodeHandshake(buf).value.consumed]; DecodeHandshake(cut) == DecodeHandshake(buf)
  {
    var cut := buf[..DecodeHandshake(buf).value.consumed];
    assert cut[..7] == buf[..7] && cut[8..12] == buf[8..12] && cut[12..16] == buf[12..16] && cut[16..20] == buf[16..20];
    assert forall i :: 0 <= i < 7 ==> buf[i] == buf[0..7][i];
    FindNulIs(cut, 0, 7);
    if FromLE(buf[8..12]) >= 3 {
      assert cut[20..24] == buf[20..24] && cut[24..32] == buf[24..32];
    }
  }

  /**
   The frame reader sees every byte behind the handshake exactly when the handshake ends where a chunk ends: bytes
   that arrive in the same chunk as the end of the handshake are dropped.
   */
  lemma BytesBehindHandshakeKeptIff(chunks: seq<Bytes>)
    requires DecodeHandshake(Concat(chunks)).Some?
    ensures var end := DecodeHandshake(Concat(chunks)).value.consumed;
            AfterHandshake(chunks) == Concat(chunks)[end..]
            <==> exists k :: 0 <= k <= |chunks| && |Concat(chunks[..k])| == end
  {
    hide DecodeHandshake;
    var all := Concat(chunks);
    RecognisedInFirstPrefix([], chunks);
    assert chunks[..|chunks|] == chunks && [] + all == all;
    HandshakeAccount([], chunks);
    var (h, n, dropped) := ReadHandshake([], chunks).value;
    ConcatSplit(chunks, n);
    assert |dropped + Concat(chunks[n..])| == |all| - h.consumed;
    assert [] + Concat(chunks[..n]) == Concat(chunks[..n]);
    if k :| 0 <= k <= |chunks| && |Concat(chunks[..k])| == h.consumed {
      ConcatSplit(chunks, k);
      assert Concat(chunks[..k]) == all[..h.consumed];
      HandshakeCut(all);
      assert [] + Concat(chunks[..k]) == Concat(chunks[..k]);
      assert n <= k;
      PrefixLonger(chunks, n, k);
    }
  }

  lemma PrefixLonger(chunks: seq<Bytes>, n: nat, k: nat)
    requires n <= k <= |chunks|
    ensures |Concat(chunks[..n])| <= |Concat(chunks[..k])|
  {
    ConcatSplit(chunks[..k], n);
    assert chunks[..k][..n] == chunks[..n];
  }

  /** One byte that arrives together with the handshake is lost; in a chunk of its own it is kept. */
  lemma ByteInHandshakeChunkLost(b: byte)
    ensures var hello := MAGIC + [0] + [2, 0, 0, 0] + Fill(8, 0);
            AfterHandshake([hello + [b]]) == [] && AfterHandshake([hello, [b]]) == [b]
  {
    var hello := MAGIC + [0] + [2, 0, 0, 0] + Fill(8, 0);
    assert hello + [] == hello;
    HelloDecodes([]);
    HelloDecodes([b]);
    assert [] + hello == hello && [] + (hello + [b]) == hello + [b];
    assert [hello, [b]][1..] == [[b]];
    ConcatOne([b]);
  }

  lemma HelloDecodes(more: Bytes)
    ensures var hello := MAGIC + [0] + [2, 0, 0, 0] + Fill(8, 0);
            DecodeHandshake(hello + more) == Some(Handshake(2, 0, 0, None, 20))
  {
    var buf := MAGIC + [0] + [2, 0, 0, 0] + Fill(8, 0) + more;
    FindNulIs(buf, 0, 7);
    assert buf[..7] == MAGIC && buf[8..12] == [2, 0, 0, 0] && buf[12..16] == Fill(4, 0) && buf[16..20] == Fill(4, 0);
    TwoLE();
    ZeroLE();
  }

  lemma ZeroLE()
    ensures FromLE(Fill(4, 0)) == 0
  {
    assert Fill(4, 0) == [0, 0, 0, 0] && [0, 0, 0, 0][1..] == [0, 0, 0] && [0, 0, 0][1..] == [0, 0];
    assert [0, 0][1..] == [0] && [0][1..] == [] && FromLE([0]) == 0 && FromLE([0, 0]) == 0 && FromLE([0, 0, 0]) == 0;
  }

  lemma TwoLE()
    ensures FromLE([2, 0, 0, 0]) == 2
  {
    assert [2, 0, 0, 0][1..] == [0, 0, 0] && [0, 0, 0][1..] == [0, 0] && [0, 0][1..] == [0] && [0][1..] == [];
    assert FromLE([0]) == 0 && FromLE([0, 0]) == 0 && FromLE([0, 0, 0]) == 0;
  }

  lemma {:induction false} ConcatSplit(chunks: seq<Bytes>, n: nat)
    requires n <= |chunks|
    ensures Concat(chunks) == Concat(chunks[..n]) + Concat(chunks[n..])
  {
    if n == 0 {
      assert chunks[n..] == chunks;
    } else {
      ConcatSplit(chunks[1..], n - 1);
      assert chunks[1..][..n - 1] == chunks[..n][1..] && chunks[1..][n - 1..] == chunks[n..];
    }
  }
}

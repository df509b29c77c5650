# Verified models of the debug protocol stack and of the module merger

The project models two parts of the repository and proves what they are for.

**The BrightScript debug protocol stack.** A length-prefixed frame codec; a binary message codec for requests,
responses and update events; a client that reassembles frames from TCP chunks and matches responses to requests by id
while timeouts and closes race each other; a session with its breakpoint cache; the table of sessions and reserved
hosts behind the debug tools; and the log stream. `EndToEnd` joins client and device by two byte streams and proves
that, whatever the chunking and the order of answers, each request gets its own answer. The layers are:

- `Bytes`, `Messages`: buffers, reads at an offset, lists of records; the logical messages.
- `WireRequests`, `WireResponses`, `WireEvents`, `WireLoops`: the codec, as functions and as the loops that compute them.
- `WireLayout`: the bytes of every message as the wire format document lays them out, with literal codes.
- `Frame`: frames, reassembly and the handshake.
- `Client`: the protocol as steps over a state, and the class `BdpClient` whose methods take exactly these steps.
- `EndToEnd`, `MockDevice`: runs of client, network and device; the in-process device.
- `Session`, `JsMap`, `DebugRegistry`: breakpoint cache, session and host tables, and the handlers split at their await.
- `LogStream`: line splitting and the bounded buffer.

**The module merger.** A small linker that turns a template and a list of modules into a project: conflict detection,
topological sort with a sorted ready queue, wiring checks, manifest merge, emission of the dispatch file, canonical
printing and the build record. `Build` composes them and proves at which stage a build fails, which files it emits and
what stands in them, and that none of this depends on the order in which the modules are listed. `ValidateManifest`
reads an emitted project back and says exactly when its manifest and its record agree. The parts are `Catalog`,
`Conflicts`, `InitOrder` and `TopoSort`, `Wiring`, `SubNames` and `InitHooks`, `MergeManifest`, `ManifestText`,
`BsValue` and `BsReader`, `Provenance`, `JsonReader` and `RecordReader`, `Build`, `ValidateManifest`; `Order`, `Seqs`,
`Text` and `Wrappers` serve them.

Conventions. A thrown exception or rejected promise is a value of a result type. Each synchronous stretch of code is
one step; what happens at an await, a timer or a socket is an action that may occur at any time. Code that works by
changing things is a method over a class or over local variables, proved equal to a function, and the properties are
proved of that function. A *normal form* (`NormRequest`, `NormResponse`) is what a message becomes when it is sent and
received: the documented defaults are filled in and what the wire does not carry is dropped.

Where the code does less than its documentation or one's expectation says, there is an input that shows it and the exact
condition under which it does:

- bytes that follow the handshake in its chunk are dropped (`Frame.ByteInHandshakeChunkLost`,
  `Frame.BytesBehindHandshakeKeptIff`);
- a packet length below the header blocks the stream for good (`Frame.ZeroLengthIsStuck`,
  `Frame.NeverCompletedIffStuck`, `Frame.DeafIffStuck`);
- the in-process device greets with 32 bytes whatever version it is told to be; of a version below 3 the client takes
  the first twenty only (`MockDevice.GreetingDecodes`, `MockDevice.GreetingRead`);
- the comment on `onEvent` promises that all listeners are called for each event, but the loop ends at the first that
  throws (`Client.SecondListenerMissesEvent`, `Client.EveryListenerNotifiedIff`,
  `EndToEnd.ListenersHearPushedEventsIff`); the model follows the code;
- a missing or unlisted key type of a container changes its code on re-encoding
  (`WireResponses.MissingKeyTypeChangesBytes`, `WireResponses.NormVariableBytes`);
- clearing an id removes one entry only (`Session.ReusedIdSurvivesClear`, `Session.ClearForgetsIdIff`), and the cache
  says throughout which location has which id exactly when every clear finds at most one (`Session.LocationMapIff`);
- detaching with the reservation mark breaks host exclusion, in one run (`DebugRegistry.SentinelBreaksExclusion`) and
  from every sound world with a pending host (`DebugRegistry.SentinelAlwaysBreaksExclusion`,
  `DebugRegistry.DetachSoundIff`);
- a manifest with unclean entries does not parse back, and can show drift (`ManifestText.TrailingSpaceLost`,
  `ManifestText.SecondLineDrifts`, `ManifestText.PrintParseIff`, `ManifestText.NoDriftAfterBuildIff`,
  `ValidateManifest.BuiltDriftsIff`);
- subs of different hooks can have the same name (`SubNames.DispatchNamesMayClash`, `SubNames.SameNameIffSameHumps`,
  `SubNames.PlainSubsDistinctIff`);
- keys are printed as they are. Printed values are uniquely readable if no key holds a colon or begins with ` }`
  (`BsReader.PrintedAlikeIffSame`); with either kind of key they need not be (`BsReader.ColonKeysAreAmbiguous`,
  `BsReader.BraceKeysAreAmbiguous`).

`dafny verify dfyconfig.toml` checks the whole project.

## Model

| member | source | states |
|---|---|---|
| `Bytes.CStrRoundTripIffNulFree` | `packages/roku-device-client/src/bdp/wire-codec.ts:165-180` | a string survives a NUL-terminated field, wherever bytes follow, exactly when it holds no NUL; this is why texts are NUL-free here |
| `Bytes.AllRoundTrip` | `packages/roku-device-client/src/bdp/wire-codec.ts:231-243` | records written one after the other are read back in order, each consuming exactly its bytes, if every record reads back at any offset |
| `Bytes.CountedRoundTrip` | `packages/roku-device-client/src/bdp/wire-codec.ts:224-243` | a counted list is read back as the normal forms of its records, and exactly its bytes are consumed |
| `Bytes.TextReadsBack` | `packages/roku-device-client/src/bdp/wire-codec.ts:165-180` | a NUL-terminated text reads back at any offset of any buffer |
| `Bytes.U32BytesAre` | `packages/roku-device-client/src/bdp/frame.ts:99-106` | a 32-bit word is four bytes, the lowest first |
| `Bytes.FourBytesRead` | `packages/roku-device-client/src/bdp/frame.ts:120-136` | any four bytes read as an unsigned word, and as a signed one by the top bit of the last byte |
| `Bytes.EightBytesRead` | `packages/roku-device-client/src/bdp/wire-codec.ts:454-456` | any eight bytes read as a long integer: the low word unsigned, the high word signed |
| `Bytes.CStrReadIff` | `packages/roku-device-client/src/bdp/wire-codec.ts:165-180` | a text is read from an offset if and only if its bytes stand there, none of them zero, and a zero byte follows inside the buffer |
| `WireRequests.BreakpointReadsBack` | `packages/roku-device-client/src/bdp/wire-codec.ts:814-830` | a breakpoint record decodes at any offset to its normal form (a zero ignore count is dropped) and consumes exactly its bytes |
| `WireRequests.CondBreakpointReadsBack` | `packages/roku-device-client/src/bdp/wire-codec.ts:832-855` | the same for a conditional breakpoint record |
| `WireRequests.FilterReadsBack` | `packages/roku-device-client/src/bdp/wire-codec.ts:867-882` | the same for an exception filter record |
| `WireRequests.VariablesRoundTrip` | `packages/roku-device-client/src/bdp/wire-codec.ts:781-812` | the flags and the path list of a variables request survive encoding; an empty path and false flags become absent |
| `WireRequests.RequestRoundTrip` | `packages/roku-device-client/src/bdp/wire-codec.ts:657-1061` | decoding what the encoder accepts gives the request in normal form, for all thirteen kinds that have a standard frame, nested lists included |
| `WireRequests.NormRequestIs` | `packages/roku-device-client/src/bdp/wire-codec.ts:956-1034` | what the normal form of a request changes: an empty path, flags that are not true and zero ignore counts become absent, and nothing else |
| `WireRequests.RequestBytesDetermineNorm` | `packages/roku-device-client/src/bdp/wire-codec.ts:657-755` | two requests have the same bytes if and only if they have the same normal form: nothing else is lost |
| `WireRequests.NormKeepsRequestBytes` | `packages/roku-device-client/src/bdp/wire-codec.ts:665-755` | normalising a request does not change its bytes |
| `WireResponses.SubtypedNameKept` | `packages/roku-device-client/src/bdp/wire-codec.ts:327-339` | what a subtyped object's combined name becomes on the wire and back: itself, unless its first separator ends it, in which case the separator is lost |
| `WireResponses.FindSeparatorFinds` | `packages/roku-device-client/src/bdp/wire-codec.ts:327-339` | the separator of a combined name is the first `; ` in it |
| `WireResponses.ValueRoundTrip` | `packages/roku-device-client/src/bdp/wire-codec.ts:316-375` | every kind of variable value reads back in its normal form |
| `WireResponses.VariableFlagBits` | `packages/roku-device-client/src/bdp/wire-codec.ts:250-268` | each bit of the flags byte says whether its part of the record is there |
| `WireResponses.VariableRoundTrip` | `packages/roku-device-client/src/bdp/wire-codec.ts:247-424` | a flag-dependent variable record decodes at any offset to its normal form and consumes exactly its bytes |
| `WireResponses.BreakpointEntryReadsBack` | `packages/roku-device-client/src/bdp/wire-codec.ts:473-517` | a breakpoint entry decodes to its normal form; the ignore count is there only for a positive id without an error |
| `WireResponses.ThreadReadsBack` | `packages/roku-device-client/src/bdp/wire-codec.ts:523-601` | a thread entry decodes to its normal form, with the index of its position |
| `WireResponses.StackFrameReadsBack` | `packages/roku-device-client/src/bdp/wire-codec.ts:607-641` | a stack frame decodes to its normal form: file before function name, an empty name becomes absent |
| `WireResponses.ErrorListsRoundTrip` | `packages/roku-device-client/src/bdp/wire-codec.ts:224-243` | three string lists in a row read back, and the offset ends up behind the third |
| `WireResponses.BodyRoundTrip` | `packages/roku-device-client/src/bdp/wire-codec.ts:1330-1447` | the body of each kind of response, at any offset, decodes to the normal form of the response and consumes exactly its bytes |
| `WireResponses.ResponseRoundTrip` | `packages/roku-device-client/src/bdp/wire-codec.ts:1276-1328` | decoding with the kind that was encoded gives the error code and the normal form of the response, for every kind and every error code |
| `WireResponses.NormResponseIs` | `packages/roku-device-client/src/bdp/wire-codec.ts:1330-1447` | what the normal form of a response changes, field by field: positions for ids and indices, absent empty names and undefined stop reasons, counts for entries with an id |
| `WireResponses.NormVariableIs` | `packages/roku-device-client/src/bdp/wire-codec.ts:377-424` | what the normal form of a variable changes, field by field |
| `WireResponses.NormValueIs` | `packages/roku-device-client/src/bdp/wire-codec.ts:316-375` | the normal form of a value, type by type |
| `WireResponses.NormVariableBytes` | `packages/roku-device-client/src/bdp/wire-codec.ts:284-290` | a variable and its normal form have the same bytes if and only if the variable is no container or its key type is in the code table: a missing or unlisted key type is written as 0, read as Unknown and then written as 17 |
| `WireResponses.MissingKeyTypeChangesBytes` | `packages/roku-device-client/src/bdp/wire-codec.ts:284-290` | a container without key type has other bytes after it was decoded |
| `WireResponses.NormKeepsBodyBytes` | `packages/roku-device-client/src/bdp/wire-codec.ts:1134-1218` | re-encoding a decoded response gives the same bytes if and only if all key types of containers are listed |
| `WireResponses.ResponseBytesDetermineNorm` | `packages/roku-device-client/src/bdp/wire-codec.ts:1276-1310` | equal bytes mean equal error codes and equal normal forms, and conversely where key types are listed |
| `WireEvents.EventRoundTrip` | `packages/roku-device-client/src/bdp/wire-codec.ts:1460-1694` | decoding inverts encoding exactly for all eight kinds of event, including three string lists followed by trailing fields |
| `WireEvents.ExceptionErrorReads` | `packages/roku-device-client/src/bdp/wire-codec.ts:1557-1582` | the exception breakpoint error reads back, whatever its reserved word holds: id, three string lists, line and file |
| `WireLayout.RequestOnWire` | `docs/refs/bdp-wire-format.md:166-385` | the bytes of each of the twelve accepted kinds of request, written out with literal codes and reserved words, as the document lays them out |
| `WireLayout.RequestEncodesIff` | `packages/roku-device-client/src/bdp/wire-codec.ts:657-755` | a request is encoded if and only if it is not a connect and every number of it fits into 32 bits |
| `WireLayout.OtherCommandsRefused` | `packages/roku-device-client/src/bdp/wire-codec.ts:893-954` | any command code other than the thirteen documented ones is refused, with that code |
| `WireLayout.StepReads` | `packages/roku-device-client/src/bdp/wire-codec.ts:757-779` | from any step type byte: 2 is out, 3 is over, every other one is line |
| `WireLayout.VariablesFlagsRead` | `packages/roku-device-client/src/bdp/wire-codec.ts:956-981` | from any flags byte: bit 0 asks for child keys, bit 2 for virtual variables, the others are ignored |
| `WireLayout.ReservedWordSkipped` | `packages/roku-device-client/src/bdp/wire-codec.ts:1002-1034` | whatever stands in the reserved word of conditional breakpoints, the request reads the same |
| `WireLayout.EventOnWire` | `docs/refs/bdp-wire-format.md:387-495` | the bytes of each of the eight kinds of event, with literal codes |
| `WireLayout.EventReads` | `packages/roku-device-client/src/bdp/wire-codec.ts:1593-1694` | an event reads back whatever its error word and reserved words hold and whatever follows; a stop has the reason that its byte stands for |
| `WireLayout.OtherEventsRefused` | `packages/roku-device-client/src/bdp/wire-codec.ts:1593-1694` | any update type other than 1 to 8 is refused, with that type |
| `WireLayout.EventEncodesIff` | `packages/roku-device-client/src/bdp/wire-codec.ts:1460-1582` | an event is encoded if and only if its unsigned and its signed numbers fit into 32 bits |
| `WireLayout.ResponseOnWire` | `docs/refs/bdp-wire-format.md:197-385` | the bytes of each kind of response, with literal codes, flags and reserved words |
| `WireLayout.ResponseEncodesIff` | `packages/roku-device-client/src/bdp/wire-codec.ts:1276-1310` | a response is encoded if and only if it has a wire form, its numbers fit, and every value belongs to its type |
| `WireLayout.ThreadReads` | `packages/roku-device-client/src/bdp/wire-codec.ts:559-601` | a thread from any flags byte and any stop code |
| `WireLayout.EvalReads` | `packages/roku-device-client/src/bdp/wire-codec.ts:1422-1447` | an evaluation from any success byte and any stop code; code 0 is no stop reason |
| `WireLayout.VariableReads` | `packages/roku-device-client/src/bdp/wire-codec.ts:377-424` | a variable record from any flags byte: bit by bit, which parts are there and where each is found |
| `WireLayout.SubtypedReads` | `packages/roku-device-client/src/bdp/wire-codec.ts:441-446` | the two texts of a subtyped object become one, around a separator unless the second is empty |
| `WireLayout.StepTypesAre` | `docs/refs/bdp-wire-format.md:596-605` | the code of each step type, in both directions |
| `WireLayout.StopReasonsAre` | `docs/refs/bdp-wire-format.md:553-563` | the code of each stop reason, in both directions |
| `WireLayout.VariableTypesAre` | `docs/refs/bdp-wire-format.md:655-675` | the code of each variable type, in both directions |
| `WireLoops.EncodeRecords` | `packages/roku-device-client/src/bdp/wire-codec.ts:822-829` | the encoding loop over records yields the count followed by the concatenation of all encodings, in order |
| `WireLoops.DecodeRecords` | `packages/roku-device-client/src/bdp/wire-codec.ts:231-243` | the decoding loop, which advances an offset and stops at the first failure, yields what the recursive list reader specifies |
| `WireLoops.EncodeVariable` | `packages/roku-device-client/src/bdp/wire-codec.ts:247-299` | the variable encoder, which pushes the parts one by one, yields the specified record |
| `WireLoops.DecodeVariableAt` | `packages/roku-device-client/src/bdp/wire-codec.ts:377-424` | the variable decoder, which advances an offset from part to part, yields what the specification reads |
| `Frame.CopyInto` | `packages/roku-device-client/src/bdp/frame.ts:99-105` | a field is written over the bytes at its offset, and all others stay as they are |
| `Frame.DecodeFrameIff` | `packages/roku-device-client/src/bdp/frame.ts:120-145` | a frame is decoded if and only if its length word is at least 8 and the buffer holds that many bytes; then its type is the second word and its payload the rest |
| `Frame.EncodeFrameIff` | `packages/roku-device-client/src/bdp/frame.ts:99-106` | length, type and payload in this order, if both words fit |
| `Frame.WriteFrame` | `packages/roku-device-client/src/bdp/frame.ts:99-105` | filling a fresh buffer field by field yields the frame of the type and payload |
| `Frame.FrameRoundTrip` | `packages/roku-device-client/src/bdp/frame.ts:99-145` | a frame is decoded from the front of any longer buffer, with its type, its payload and its length |
| `Frame.DecodeFramePrefixStable` | `packages/roku-device-client/src/bdp/frame.ts:120-145` | a frame that was decoded is decoded again, unchanged, after more bytes have arrived |
| `Frame.NeverCompletedIffStuck` | `packages/roku-device-client/src/bdp/frame.ts:120-145` | a buffer without a complete frame can be completed to one by further bytes, except if and only if it announces a packet length below the header length |
| `Frame.DeafIffStuck` | `packages/roku-device-client/src/bdp/client.ts:333-339` | whatever chunks arrive, a receiver sees no further frame if and only if its left-over bytes announce such a length |
| `Frame.ZeroLengthIsStuck` | `packages/roku-device-client/src/bdp/frame.ts:120-145` | four zero bytes are a buffer that no further bytes complete |
| `Frame.DrainAppend` | `packages/roku-device-client/src/bdp/client.ts:333-339` | draining the rest of one drain together with a new chunk is draining both chunks at once |
| `Frame.ChunkingIrrelevant` | `packages/roku-device-client/src/bdp/client.ts:333-339` | the frames drained over any sequence of chunks, and the bytes left over, are those of draining the concatenation once |
| `Frame.StreamRecovered` | `packages/roku-device-client/src/bdp/frame.ts:99-145` | a stream of encoded frames is recovered exactly, with nothing left over, however it is cut |
| `Frame.DrainPrefix` | `packages/roku-device-client/src/bdp/frame.ts:120-145` | any prefix of a stream of encoded frames drains to the first of these frames, and the rest is the front of the remaining stream |
| `Frame.HandshakePrefixStable` | `packages/roku-device-client/src/bdp/frame.ts:187-224` | a recognised handshake is recognised again, unchanged, with more bytes behind it |
| `Frame.DecodeHandshakeIff` | `packages/roku-device-client/src/bdp/frame.ts:187-224` | for every buffer, byte by byte: it is recognised as a handshake with these fields if and only if it starts with the magic and its zero byte, the three version words stand in their places, and from major version 3 on a length of at least 8, a timestamp and that many bytes follow |
| `Frame.BytesBehindHandshakeKeptIff` | `packages/roku-device-client/src/bdp/client.ts:423-446` | the frame reader sees every byte behind the handshake if and only if some chunk ends where the handshake ends; otherwise the bytes behind it in its last chunk are dropped |
| `Frame.ByteInHandshakeChunkLost` | `packages/roku-device-client/src/bdp/client.ts:427-435` | a byte that arrives together with the handshake is lost, while in a chunk of its own it is kept |
| `Client.SettledExactlyOnce` | `packages/roku-device-client/src/bdp/client.ts:259-409` | over every interleaving of sends, data, timeouts, failing encodings, closes and socket closes: each promised id is pending or settled and never both, none is settled twice, the armed timers are the pending ids, and a closed client has nothing pending |
| `Client.ExpectedKindIff` | `packages/roku-device-client/src/bdp/client.ts:452-482` | the kind that a request waits for is the kind of exactly those responses that answer it |
| `Client.SendWrites` | `packages/roku-device-client/src/bdp/client.ts:266-292` | an accepted send writes the frame of the request under the next id, arms its timer and waits for the response that answers it; nothing else changes |
| `Client.SendRejects` | `packages/roku-device-client/src/bdp/client.ts:284-291` | a send that cannot be encoded rejects its own promise and leaves no trace in what is pending, armed or written |
| `Client.CloseDoes` | `packages/roku-device-client/src/bdp/client.ts:319-327` | closing rejects what is pending, in ascending order of ids, and nothing else; a closed client stays as it is |
| `Client.SocketCloseDoes` | `packages/roku-device-client/src/bdp/client.ts:385-394` | a closed socket does the same and calls the close listeners, which are forgotten unless one throws |
| `Client.NextIdIs` | `packages/roku-device-client/src/bdp/client.ts:259-268` | after any run the next id is one more than the number of sends on the open client |
| `Client.ListenersInOrder` | `packages/roku-device-client/src/bdp/client.ts:295-303` | after any run the listeners are those registered, in their order |
| `Client.RunExtends` | `packages/roku-device-client/src/bdp/client.ts:259-409` | no later step takes back a settlement, a call to a listener or a written byte |
| `Client.ClosedClientIsInert` | `packages/roku-device-client/src/bdp/client.ts:259-264` | a closed client promises nothing and writes nothing, in all its further runs |
| `Client.SendPromisesFreshId` | `packages/roku-device-client/src/bdp/client.ts:266-282` | a send on an open client promises an id that was never promised before |
| `Client.ResolvesIff` | `packages/roku-device-client/src/bdp/client.ts:354-381` | a frame resolves a promise with a response if and only if its id is pending, its body decodes to that response for the expected kind, and its error code is zero |
| `Client.ErrorCodeNeverResolves` | `packages/roku-device-client/src/bdp/client.ts:363-376` | a response with an error code other than zero never resolves |
| `Client.RejectsIff` | `packages/roku-device-client/src/bdp/client.ts:354-381` | a frame rejects a promise if and only if its id is pending and its body is undecodable or has an error code other than zero; which of the two is the reason |
| `Client.IgnoredIff` | `packages/roku-device-client/src/bdp/client.ts:341-357` | a frame changes nothing if and only if it is an event that cannot be decoded or that nobody listens to, or a response under an id that is not pending |
| `Client.ProcessIsHandleAll` | `packages/roku-device-client/src/bdp/client.ts:333-383` | the receive loop handles exactly the frames in the buffer, in order, and keeps the rest |
| `Client.TwoChunksAreOne` | `packages/roku-device-client/src/bdp/client.ts:333-383` | two chunks leave the client in the state that one chunk of both would |
| `Client.ClientChunkingIrrelevant` | `packages/roku-device-client/src/bdp/client.ts:333-383` | the whole state of the client after any sequence of chunks is that after their concatenation |
| `Client.EveryListenerNotifiedIff` | `packages/roku-device-client/src/bdp/client.ts:343-350` | every listener is called once for an event, in registration order, if and only if no listener other than the last throws on it |
| `Client.SecondListenerMissesEvent` | `packages/roku-device-client/src/bdp/client.ts:295-303` | of two listeners, the second is not called for an event on which the first throws |
| `Client.StuckClientHearsNothing` | `packages/roku-device-client/src/bdp/client.ts:333-339` | a client whose buffer announces a frame that is too short only collects bytes from then on: no promise is settled by data any more |
| `Client.ListenersDoNotAffectSettlement` | `packages/roku-device-client/src/bdp/client.ts:341-352` | whichever listeners there are and whatever they throw, the same promises are settled in the same way |
| `Client.BdpClient.Send` | `packages/roku-device-client/src/bdp/client.ts:259-293` | the method takes exactly the send step of the protocol and keeps the invariant |
| `Client.BdpClient.OnData` | `packages/roku-device-client/src/bdp/client.ts:333-383` | the receive loop takes exactly the data step, keeps the invariant and leaves no complete frame behind |
| `Client.BdpClient.Dispatch` | `packages/roku-device-client/src/bdp/client.ts:343-350` | listeners are called in order up to and including one that throws |
| `Client.BdpClient.DrainPending` | `packages/roku-device-client/src/bdp/client.ts:399-409` | every pending request is rejected, oldest first, and its timer cleared |
| `Client.BdpClient.Close` | `packages/roku-device-client/src/bdp/client.ts:319-327` | closing takes exactly the close step: idempotent, nothing stays pending |
| `Client.BdpClient.HandleSocketClose` | `packages/roku-device-client/src/bdp/client.ts:385-394` | a closed socket rejects what is pending and calls the close listeners in order |
| `Client.BdpClient.NotifyCloseListeners` | `packages/roku-device-client/src/bdp/client.ts:390-393` | close listeners are called up to and including one that throws; the list is cleared only if none does |
| `Client.EveryCloseListenerNotifiedIff` | `packages/roku-device-client/src/bdp/client.ts:305-313` | every close listener is called once if and only if none other than the last throws |
| `Client.BdpClient.OnTimeout` | `packages/roku-device-client/src/bdp/client.ts:271-280` | a timer that fires rejects its own request and no other |
| `EndToEnd.EmissionFrameHandled` | `packages/roku-device-client/src/bdp/client.ts:333-383` | the bytes of an answer or event have on the client the effect that the answer or event means |
| `EndToEnd.ClientOfRun` | `packages/roku-device-client/src/bdp/client.ts:259-409` | in every run of the system the client goes through the steps of its own protocol for the sends, arriving bytes, timeouts and closes of that run |
| `EndToEnd.DisturbedIff` | `packages/roku-device-client/src/bdp/client.ts:271-327` | a run counts as disturbed, in the theorems on delivered runs, exactly if a timer fires or the client or its socket closes in it |
| `EndToEnd.EveryRunKeepsInv` | `packages/roku-device-client/src/bdp/client.ts:259-409` | the invariant of client, device and the two streams holds in every state of every run |
| `EndToEnd.ResolvedWithOwnAnswer` | `packages/roku-device-client/src/bdp/client.ts:259-383` | in every run, with any chunking, any order of answers, events in between, timeouts and closes: a promise that resolves does so with the normal form of the device's answer to that very request, and of the kind that the request expects |
| `EndToEnd.DeliveredRunIsComplete` | `packages/roku-device-client/src/bdp/client.ts:259-383` | without timeout and close, once all bytes have arrived, every answer has settled its own request, exactly the unanswered requests are pending, and listeners have been called for all events in wire order |
| `EndToEnd.AllAnsweredAllSettled` | `packages/roku-device-client/src/bdp/client.ts:259-383` | if moreover every request has been taken and answered, no request is pending and no timer is armed |
| `EndToEnd.EveryRequestCanBeServed` | `packages/roku-device-client/src/bdp/client.ts:259-383` | from every quiet system, for every sendable request and every sendable answer to it there are moves after which that request, and nothing else, has been settled with that answer, and the system is quiet again |
| `EndToEnd.EveryEventCanBeDelivered` | `packages/roku-device-client/src/bdp/client.ts:341-352` | from every quiet system every sendable event reaches the listeners, and nothing else changes |
| `EndToEnd.ListenersHearEveryEventIff` | `packages/roku-device-client/src/bdp/client.ts:343-350` | each listener hears a sequence of events completely, once and in order, if and only if none but the last throws on any of them |
| `EndToEnd.ListenersHearPushedEventsIff` | `packages/roku-device-client/src/bdp/client.ts:295-303` | in every run without timeout and close, once all bytes have arrived, each listener has heard all events the device pushed, once and in wire order, if and only if none but the last throws on one of them |
| `MockDevice.RepliesAppend` | `packages/roku-device-client/src/bdp/_internal/mock-bdp-server.ts:151-157` | the device's answers to two stretches of frames are the answers to the first followed by those to the second |
| `MockDevice.DeviceChunkingIrrelevant` | `packages/roku-device-client/src/bdp/_internal/mock-bdp-server.ts:128-157` | however the client's bytes are cut, the device greets the same number of times, which is at most one, writes the same answers and keeps the same bytes |
| `MockDevice.OneExchange` | `packages/roku-device-client/src/bdp/_internal/mock-bdp-server.ts:159-203` | an encoded request reaches its handler in normal form, and the frame written for the answer carries the request's id and is read by the client as the normal form of the answer |
| `MockDevice.GreetingDecodes` | `packages/roku-device-client/src/bdp/frame.ts:187-224` | the client decodes a greeting to the version it was made for, and from major version 3 on to its time and to all of its bytes |
| `MockDevice.GreetingRead` | `packages/roku-device-client/src/bdp/_internal/mock-bdp-server.ts:41-62` | the greeting of the device, under any cut, is read by the client as its version and time, with nothing left over, if its major version is at least 3 |
| `MockDevice.StreamServed` | `packages/roku-device-client/src/bdp/_internal/mock-bdp-server.ts:129-209` | eight bytes of handshake and a stream of request frames, under any cut, get one greeting and the answers to these frames in their order |
| `MockDevice.MockDevice.OnData` | `packages/roku-device-client/src/bdp/_internal/mock-bdp-server.ts:128-203` | the data handler takes the handshake off once and then answers every complete frame, as specified |
| `Session.KeyInjective` | `packages/roku-device-client/src/bdp/session.ts:255-256` | a cache key stands for exactly one file and one line, even if the file holds colons |
| `Session.FindIdFinds` | `packages/roku-device-client/src/bdp/session.ts:302-307` | the reverse lookup finds the last cached entry with an id, and nothing only if no entry has it |
| `Session.LocationMapIff` | `packages/roku-device-client/src/bdp/session.ts:222-283` | over every history of completed sets and clears: at every moment a location is cached with an id just when its latest set was given that id and the id was not cleared since, if and only if every clear finds at most one entry with its id |
| `Session.ClearKeepsLocationMapIff` | `packages/roku-device-client/src/bdp/session.ts:268-283` | a single clear keeps the cache such a location map if and only if at most one entry has its id |
| `Session.CacheIsLocationMap` | `packages/roku-device-client/src/bdp/session.ts:222-283` | the cache is always such a location map if no id stands for two locations in the history |
| `Session.ClearForgetsIdIff` | `packages/roku-device-client/src/bdp/session.ts:276-282` | after a clear no entry has the id if and only if at most one had it before, since only the first match is deleted |
| `Session.ListedIsFilter` | `packages/roku-device-client/src/bdp/session.ts:308-322` | a listing is the device's list filtered to cached ids, in device order, each entry being the last cached one with its id |
| `Session.ListedLocations` | `packages/roku-device-client/src/bdp/session.ts:308-322` | as long as the cache is a location map, every listed breakpoint is at the location whose latest set was given its id |
| `Session.LifeOfSession` | `packages/roku-device-client/src/bdp/session.ts:123-128` | over every sequence of socket closes and detaches: a session is live exactly until the first, lost ever after, detached if and only if `detach` was called, and closes its client exactly once in that case and never otherwise |
| `Session.ReusedIdSurvivesClear` | `packages/roku-device-client/src/bdp/session.ts:268-283` | if a device gives one id to two locations, the second is still cached after the id is cleared |
| `Session.BdpSession.FinishSet` | `packages/roku-device-client/src/bdp/session.ts:230-257` | the response to a set is cached if and only if it has the right kind and a first entry without error |
| `Session.BdpSession.FinishClear` | `packages/roku-device-client/src/bdp/session.ts:276-282` | the loop over the cache removes the first entry with the id |
| `Session.BdpSession.FinishList` | `packages/roku-device-client/src/bdp/session.ts:302-322` | the reverse lookup and the loop over the device's list yield the specified listing, or an error for a response of another kind |
| `Session.BdpSession.CurrentBreakpoints` | `packages/roku-device-client/src/bdp/session.ts:337-339` | file and line of every cached breakpoint, whatever the state of the session |
| `Session.BdpSession.Detach` | `packages/roku-device-client/src/bdp/session.ts:181-195` | detaching is idempotent, ends the live state and keeps the cache |
| `DebugRegistry.RunsAreSound` | `packages/rokudev-device/src/tools/debug-lifecycle.ts:42-125` | in every world of every run of attaches split at their await, failures and detaches: no two hosts have the same session, registered sessions are those bound to a host, a host is pending exactly while one attach is in flight, and the other invariants below hold |
| `DebugRegistry.NoHostHasTwoSessions` | `packages/rokudev-device/src/util/debug-session-registry.ts:47-68` | two registered sessions are always bound to two different hosts, and each to one only |
| `DebugRegistry.DetachSoundIff` | `packages/rokudev-device/src/tools/debug-lifecycle.ts:108-124` | a detach keeps the host table sound if and only if the id it is given is not the reservation mark |
| `DebugRegistry.FreeHostCanBeAttached` | `packages/rokudev-device/src/tools/debug-lifecycle.ts:45-58` | in every sound world a free host can be attached under any new id; the session is bound, remembered breakpoints are handed out, nothing else changes |
| `DebugRegistry.FailureUndoesAttach` | `packages/rokudev-device/src/tools/debug-lifecycle.ts:42-60` | an attach that fails leaves the world as it was before |
| `DebugRegistry.DetachDoes` | `packages/rokudev-device/src/tools/debug-lifecycle.ts:108-124` | detaching a bound session frees its host alone, remembers its breakpoints if it has any, and records its id |
| `DebugRegistry.SentinelBreaksExclusion` | `packages/rokudev-device/src/tools/debug-lifecycle.ts:108-124` | a run in which a detach with the reservation mark lets two attaches to one host succeed: both sessions are registered, one of them without a host |
| `DebugRegistry.SentinelAlwaysBreaksExclusion` | `packages/rokudev-device/src/tools/debug-lifecycle.ts:108-124` | every sound world in which a host is pending has such a run: detach with the mark, a second attach begins, both succeed, and both sessions were attached to that host |
| `DebugRegistry.DetachedAreLastDropped` | `packages/rokudev-device/src/util/debug-session-registry.ts:30-45` | the detached ids are always the last 256 dropped ids, in order, and none of them is registered |
| `DebugRegistry.ReportsPrecedingDetach` | `packages/rokudev-device/src/util/debug-session-registry.ts:70-84` | each successful attach reports exactly the snapshot of the detach that came last on that host, and no snapshot is reported twice |
| `DebugRegistry.DebugRegistry.DropSession` | `packages/rokudev-device/src/util/debug-session-registry.ts:30-41` | dropping removes the session and records its id, evicting the oldest of more than 256 |
| `DebugRegistry.DebugRegistry.ReserveHost` | `packages/rokudev-device/src/util/debug-session-registry.ts:47-52` | a host that is in the table is busy, any other becomes pending |
| `DebugRegistry.DebugRegistry.GetHostForSession` | `packages/rokudev-device/src/util/debug-session-registry.ts:63-68` | finds a host bound to the session if there is one |
| `DebugRegistry.DebugRegistry.AttachSucceeded` | `packages/rokudev-device/src/tools/debug-lifecycle.ts:47-57` | what follows the await of a successful attach: session registered and bound, remembered breakpoints handed out and forgotten |
| `DebugRegistry.DebugRegistry.DebugDetach` | `packages/rokudev-device/src/tools/debug-lifecycle.ts:108-124` | the detach handler as one step: snapshot remembered, session closed and dropped, host released; nothing at all for an unknown id |
| `DebugRegistry.DebugRegistry.DebugSessionState` | `packages/rokudev-device/src/tools/debug-lifecycle.ts:141-156` | the answer is the state of a registered session, else `detached` for an id dropped lately, else `unknown` |
| `LogStream.SplitLosesNothing` | `packages/roku-device-client/src/telnet/client.ts:96-104` | splitting text into lines loses and moves no character, and no line holds a newline |
| `LogStream.LinesChunkIndependent` | `packages/roku-device-client/src/telnet/client.ts:98-103` | of text, the lines recovered and the text left over do not depend on how it is cut into chunks |
| `LogStream.LogStream.NothingUnaccounted` | `packages/roku-device-client/src/telnet/client.ts:117-160` | lines pushed are lines returned plus lines reported as dropped plus lines dropped or waiting now |
| `LogStream.LogStream.Push` | `packages/roku-device-client/src/telnet/client.ts:154-160` | the buffer holds the last 65536 lines since the last read, and the counter how many more there were |
| `LogStream.LogStream.OnData` | `packages/roku-device-client/src/telnet/client.ts:96-104` | a chunk adds exactly the lines it completes |
| `LogStream.LogStream.Read` | `packages/roku-device-client/src/telnet/client.ts:117-146` | a read hands out the last 65536 of the n lines since the read before, in order, reports n - 65536 as dropped if that is positive, and fails only when closed and empty |
| `InitOrder.OrderIsLeast` | `packages/brs-gen/src/merger/init-order.ts:9-62` | a successful sort is a topological order of the modules, and the lexicographically least of all |
| `InitOrder.SortsIffAcyclic` | `packages/brs-gen/src/merger/init-order.ts:53-62` | the sort succeeds if and only if the before/after constraints among the modules present have no cycle |
| `InitOrder.UnresolvedBehindCycle` | `packages/brs-gen/src/merger/init-order.ts:53-60` | the ids reported on failure are exactly the modules that lie on a cycle or behind one, in ascending order |
| `InitOrder.SortingCanonical` | `packages/brs-gen/src/merger/init-order.ts:9-62` | the outcome does not depend on the order in which the modules are listed |
| `InitOrder.KahnProperties` | `packages/brs-gen/src/merger/init-order.ts:33-51` | the sort takes distinct modules, each after all its predecessors, until none is ready |
| `TopoSort.BuildGraph` | `packages/brs-gen/src/merger/init-order.ts:10-31` | the loops over constraints build the edge sets and in-degrees of the graph, each edge counted once |
| `TopoSort.ReleaseSuccessors` | `packages/brs-gen/src/merger/init-order.ts:39-50` | taking a module lowers the in-degrees of its successors and inserts the freed ones so that the queue stays sorted |
| `TopoSort.TakeReady` | `packages/brs-gen/src/merger/init-order.ts:33-51` | the main loop yields the least ready module again and again |
| `TopoSort.TopoSort` | `packages/brs-gen/src/merger/init-order.ts:9-62` | the imperative sort, with its in-degree map and sorted queue, yields what the specification says, order or cycle report |
| `MergeManifest.TokensRoundTrip` | `packages/brs-gen/src/merger/merge-manifest.ts:7-18` | tokenising the joined form of a set of tokens gives the set back |
| `MergeManifest.RulesAre` | `packages/brs-gen/src/catalog/manifest-key-strategies.ts:4-28` | which keys modules may contribute, which are for templates alone, and which are lists |
| `MergeManifest.MergeAppendCsv` | `packages/brs-gen/src/merger/merge-manifest.ts:7-18` | the merged value is the sorted, duplicate-free union of both values' tokens |
| `MergeManifest.MergeSpecification` | `packages/brs-gen/src/merger/merge-manifest.ts:20-116` | the merge succeeds if and only if every contributed key is known and open to modules and all contributions to a plain key, the template's included, agree; the result is the manifest described by IsMerge, with the union of all tokens under a csv key |
| `MergeManifest.IsMergeUnique` | `packages/brs-gen/src/merger/merge-manifest.ts:20-116` | defaults and the set of contributions determine the merged manifest, so that the order of contributions does not matter |
| `MergeManifest.FailureIsFirstOffence` | `packages/brs-gen/src/merger/merge-manifest.ts:31-92` | a failed merge reports the first contribution that the ones before it and the defaults do not admit, with the reason |
| `MergeManifest.MergeManifest` | `packages/brs-gen/src/merger/merge-manifest.ts:20-116` | the nested loops with early returns yield the merge of the contributions, or its first failure |
| `ManifestText.PrintParseIff` | `packages/brs-gen/src/tools/validate-manifest.ts:17-29` | parsing the printed manifest gives the manifest back if and only if every key and value is clean: keys trimmed, without '=' and newline and not starting with '#', values without newline and without space at the end |
| `ManifestText.PrintIs` | `packages/brs-gen/src/merger/build.ts:169-175` | the manifest as text is one line `key=value` for each entry, in ascending order of keys |
| `ManifestText.SkippedIff` | `packages/brs-gen/src/tools/validate-manifest.ts:17-29` | a line is skipped if and only if it is blank, or starts with `#` behind its leading space, or has no `=` |
| `ManifestText.AnyLineParses` | `packages/brs-gen/src/tools/validate-manifest.ts:17-29` | space around a line and between key and `=` does not matter; space behind `=` belongs to the value |
| `ManifestText.LastLineWins` | `packages/brs-gen/src/tools/validate-manifest.ts:17-29` | of several lines with one key the last one counts |
| `ManifestText.TrailingSpaceLost` | `packages/brs-gen/src/tools/validate-manifest.ts:17-29` | a value with a space at its end does not parse back |
| `ManifestText.ParseManifest` | `packages/brs-gen/src/tools/validate-manifest.ts:17-29` | the parsing loop yields the specified map |
| `ManifestText.NoDriftIff` | `packages/brs-gen/src/tools/validate-manifest.ts:105-112` | no drift is reported if and only if the recorded keys are the keys of the manifest |
| `ManifestText.MissingAre` | `packages/brs-gen/src/tools/validate-manifest.ts:105-106` | the first list holds the recorded keys that the manifest lacks, each as often as recorded, sorted |
| `ManifestText.ExtraAre` | `packages/brs-gen/src/tools/validate-manifest.ts:107` | the second list holds the keys of the manifest that are not recorded, each once, ascending |
| `ManifestText.NoDriftAfterBuildIff` | `packages/brs-gen/src/merger/build.ts:169-189` | a build shows no drift against the keys it records if and only if all its keys are clean and no further line of a value reads as an entry for a key that the manifest lacks |
| `ManifestText.SecondLineDrifts` | `packages/brs-gen/src/merger/build.ts:169-189` | a value whose second line reads as an entry shows drift |
| `Wiring.WiredIff` | `packages/brs-gen/src/merger/wiring.ts:12-112` | wiring succeeds if and only if every module's needs and init calls are exported and its optional calls are well-formed and duplicate no strict one |
| `Wiring.ErrorIsTrue` | `packages/brs-gen/src/merger/wiring.ts:12-112` | a reported error names a present module that breaks its contract in just this way, and errors of optional calls are reported only if there are no others |
| `Wiring.MatchedInExactly` | `packages/brs-gen/src/merger/wiring.ts:83-108` | the matched calls of a module are exactly its optional calls to exported hooks, with their hooks and statements |
| `Wiring.ValidateWiring` | `packages/brs-gen/src/merger/wiring.ts:12-112` | the loops with early returns yield the first error, or all matched optional calls in order |
| `InitHooks.EmissionConserves` | `packages/brs-gen/src/merger/emit-init-hooks.ts:17-36` | every call appears exactly once in the bodies taken together, and the body of a hook holds just the calls to it |
| `InitHooks.WiredCallsConserved` | `packages/brs-gen/src/merger/emit-init-hooks.ts:9-39` | after successful wiring, with distinct hook keys, this holds of all init calls and of all matched optional calls |
| `InitHooks.BodyFollowsOrder` | `packages/brs-gen/src/merger/emit-init-hooks.ts:21-35` | within a body the strict calls, and likewise the optional ones, follow the initialisation order of their modules |
| `InitHooks.EveryHookHasItsSub` | `packages/brs-gen/src/merger/emit-init-hooks.ts:17-36` | every hook has its sub in the dispatch file, in which all strict calls come before all optional ones |
| `InitHooks.HooksTextHasJustItsSubs` | `packages/brs-gen/src/merger/emit-init-hooks.ts:9-39` | the dispatch file consists of its two header lines and one sub for each hook, in the order of the hooks, and of nothing else |
| `InitHooks.HooksTextCanonical` | `packages/brs-gen/src/merger/emit-init-hooks.ts:9-39` | the dispatch file is the same text for every listing of the same modules |
| `InitHooks.HooksTextIs` | `packages/brs-gen/src/merger/emit-init-hooks.ts:9-39` | the whole dispatch file, written out from the hooks of the template and the calls that the modules list, module by module in initialisation order |
| `SubNames.SameNameIffSameHumps` | `packages/brs-gen/src/merger/emit-init-hooks.ts:3-7` | for all hooks: two subs have the same name if and only if scope and phase, cut at separators and capitals, give the same humps |
| `SubNames.NameOfRuns` | `packages/brs-gen/src/merger/emit-init-hooks.ts:3-7` | for all hooks: the name of a sub is the prefix and the runs of letters and digits of scope and phase, each with its first letter in upper case |
| `SubNames.LaidOut` | `packages/brs-gen/src/merger/emit-init-hooks.ts:3-7` | every text is such a row of runs and separators |
| `SubNames.AlnumIs` | `packages/brs-gen/src/merger/emit-init-hooks.ts:4` | what counts as a letter or digit |
| `SubNames.SameNameIffSameWords` | `packages/brs-gen/src/merger/emit-init-hooks.ts:3-7` | for identifiers in small letters: the names are the same if and only if scope and phase together have the same words in a row |
| `SubNames.PlainNamesTellHooks` | `packages/brs-gen/src/merger/emit-init-hooks.ts:3-7` | for identifiers of small letters and digits without underscores: the names are the same if and only if scope and phase are |
| `SubNames.PlainSubsDistinctIff` | `packages/brs-gen/src/merger/emit-init-hooks.ts:17-20` | with such hooks the subs of a template have distinct names if and only if its hooks have distinct keys |
| `SubNames.DistinctSubsIff` | `packages/brs-gen/src/merger/emit-init-hooks.ts:17-20` | the subs of any template have distinct names if and only if no two hooks have the same humps |
| `SubNames.IdentifierIs` | `packages/brs-gen/src/catalog/template-toml.ts:5-11` | scopes and phases that the schema admits: not empty, letters, digits and underscores only, no digit in front |
| `SubNames.DispatchNamesMayClash` | `packages/brs-gen/src/catalog/template-toml.ts:5-11` | two hooks that the schema of templates admits, with different keys, can have subs of the same name |
| `InitHooks.GroupCalls` | `packages/brs-gen/src/merger/build.ts:128-130` | the table from module ids to calls holds under each id the calls of that module |
| `InitHooks.EmitInitHooks` | `packages/brs-gen/src/merger/emit-init-hooks.ts:9-39` | the nested loops over hooks, order and calls yield the specified dispatch file |
| `BsValue.SameIffCanon` | `packages/brs-gen/src/util/deterministic.ts:23-37` | two values are equal up to key order and the values that print as invalid if and only if they have the same canonical form |
| `BsValue.RefusedIff` | `packages/brs-gen/src/util/deterministic.ts:3-37` | a value is refused if and only if some string in it, at any depth, holds a control character |
| `BsValue.KeysDistinctIff` | `packages/brs-gen/src/util/deterministic.ts:29-34` | the values meant here are those in which no object, at any depth, lists a key twice |
| `BsValue.TextIsShownCanon` | `packages/brs-gen/src/util/deterministic.ts:23-37` | the printed text of a value is that of its canonical form |
| `BsReader.ReadShown` | `packages/brs-gen/src/util/deterministic.ts:3-37` | reading a printed value gives the value and exactly what follows it, doubled quotes included |
| `BsReader.ReadableIff` | `packages/brs-gen/src/util/deterministic.ts:23-37` | the values that the reader is meant for: number texts, and keys without colon that do not begin with a space and a closing brace, at every depth |
| `BsReader.PrintedIsRead` | `packages/brs-gen/src/util/deterministic.ts:23-37` | the reader inverts the printer up to canonical form |
| `BsReader.PrintedAlikeIffSame` | `packages/brs-gen/src/util/deterministic.ts:3-37` | two printable values whose keys hold no colon and do not begin with a space and a closing brace print to the same text if and only if they are equal up to key order and the collapse of null, undefined and non-finite numbers |
| `BsReader.ColonKeysAreAmbiguous` | `packages/brs-gen/src/util/deterministic.ts:30-34` | with a colon in a key two different values print alike |
| `BsReader.BraceKeysAreAmbiguous` | `packages/brs-gen/src/util/deterministic.ts:30-34` | with keys that begin with a space and a closing brace two different values print alike, even without a colon in any key |
| `Order.SortByStable` | `packages/brs-gen/src/util/deterministic.ts:39-41` | sorting by path keeps the order of items with the same path |
| `Order.LessIff` | `packages/brs-gen/src/merger/init-order.ts:11` | a string comes before another if and only if it is a proper prefix of it or has the smaller character where the two first differ |
| `Order.SortByCanonical` | `packages/brs-gen/src/util/deterministic.ts:39-41` | with distinct keys, sorting by key gives the same list for every order of the items |
| `Conflicts.NoConflictIff` | `packages/brs-gen/src/merger/conflicts.ts:6-57` | no conflict is found if and only if no present module is excluded and every module file is unreserved, not the template's, and added once |
| `Conflicts.CompatiblePermuted` | `packages/brs-gen/src/merger/conflicts.ts:6-57` | whether modules are compatible does not depend on their order |
| `Conflicts.FoundIs` | `packages/brs-gen/src/merger/conflicts.ts:6-57` | a reported conflict is an exclusion of a present module if there is any, else the first added path, in order of modules and files, that is reserved or taken, with the owner that has it |
| `Conflicts.DetectConflicts` | `packages/brs-gen/src/merger/conflicts.ts:6-57` | the loops with early returns and the table of owners yield the first conflict, exclusions before files |
| `Provenance.RecordTextIgnoresOrder` | `packages/brs-gen/src/merger/provenance.ts:10-30` | the printed record does not depend on the order of its fields |
| `Provenance.ProvenanceCanonical` | `packages/brs-gen/src/merger/provenance.ts:32-45` | the record is the same for every order of the modules and of the manifest keys |
| `Provenance.EscapedIs` | `packages/brs-gen/src/merger/provenance.ts:26-29` | how each character of a text is written in a record |
| `JsonReader.ReadShown` | `packages/brs-gen/src/merger/provenance.ts:10-30` | a printed value with ascending fields is read back, whatever follows it |
| `RecordReader.RecordReads` | `packages/brs-gen/src/merger/provenance.ts:32-45` | the text of a record reads as a whole as a record in which every value of the input stands under its own name, lists in the order that they should have |
| `RecordReader.SameRecordIff` | `packages/brs-gen/src/merger/provenance.ts:32-45` | two records are equal if and only if versions, template and initialisation order are the same, and manifest keys, modules and the files of each module are the same up to order |
| `Build.FilesPermuted` | `packages/brs-gen/src/merger/build.ts:114-125` | for every listing of the same modules the same files are emitted, each as often |
| `Build.MergePermuted` | `packages/brs-gen/src/merger/build.ts:83-112` | the merge succeeds or fails alike, with the same manifest, for every listing of the same modules |
| `Build.StageIs` | `packages/brs-gen/src/merger/build.ts:72-136` | for all inputs: the build fails at the first stage whose condition, stated on the modules, does not hold, and succeeds if all hold |
| `Build.BuiltFiles` | `packages/brs-gen/src/merger/build.ts:114-241` | after a successful build a file is emitted if and only if it comes from the template, an asset, a module, the configuration of a module or of the template, or is the dispatch file, the printed manifest or the record; files are sorted by path, and the manifest is the merge of all contributions into the defaults |
| `Build.BuiltCount` | `packages/brs-gen/src/merger/build.ts:138-240` | each source adds as many files as it has |
| `Build.DefaultsAre` | `packages/brs-gen/src/merger/build.ts:87-109` | a rendered template default wins over the entry of an asset |
| `Build.BsIdIs` | `packages/brs-gen/src/util/module-id.ts:14-16` | in paths and names the dots of a module id, and nothing else, become underscores |
| `Build.BuildEmittedProject` | `packages/brs-gen/src/merger/build.ts:72-241` | the composition of all stages yields the specified project or the stage that failed |
| `Build.BuiltHooksHoldCallsInOrder` | `packages/brs-gen/src/merger/build.ts:72-136` | a successful build with distinct hook keys emits a dispatch file with a sub for every hook and nothing else, in which every declared and every matched call stands once, in the body of its own hook, and in every body strict and optional calls each respect all before/after constraints between modules |
| `Build.BuiltHooksText` | `packages/brs-gen/src/merger/build.ts:126-136` | the dispatch file of a successful build, written out from the hooks of the template and the calls that the modules list |
| `ValidateManifest.BuiltRecord` | `packages/brs-gen/src/merger/build.ts:177-191` | the record of a successful build can be read and holds, under their names, the versions, the template, each module with its files and configuration file, the initialisation order and the keys of the built manifest |
| `ValidateManifest.DriftIs` | `packages/brs-gen/src/tools/validate-manifest.ts:84-116` | the check fails if and only if the record cannot be read; else the two lists of drift are exactly the recorded keys that the manifest lacks and the keys of the manifest that are not recorded |
| `ValidateManifest.BuiltDriftsIff` | `packages/brs-gen/src/tools/validate-manifest.ts:41-116` | checking a project as it was built finds no drift between its manifest file and its record if and only if all keys are clean and no value has a further line that reads as an entry for a key that the manifest lacks |
| `Build.BuildCanonical` | `packages/brs-gen/src/merger/build.ts:72-241` | two listings of the same modules with distinct ids fail at the same stage, or emit the same manifest, dispatch file, record and initialisation order, and the same files with the same paths in the same order; the lists of files are identical if paths are distinct |

## Left out

- Sockets, connect with fallback port, handshake timeout and version check (`client.ts:68-244`): I/O; runs start after the handshake.
- The listeners are not re-entered: a listener or promise handler that calls `send` or `close` acts in a later step.
- The self-describing response format (`encodeResponse`, `decodeResponse` in `wire-codec.ts`): the client does not use it.
- UTF-8: texts on the wire are NUL-free byte sequences; a string with a NUL is cut at it by the original.
- IEEE floats: Float and Double values are opaque groups of 4 and 8 bytes; a whole number given for such a type, or a fraction given for an integer type, is not modelled.
- Long integers are exact integers; the original rounds those beyond 2^53 when it turns them into a JavaScript number.
- The texts and details of errors: failures carry a reason, not the message of the original.
- The methods of a session are split at their await: what precedes it is `GuardLive`, what follows is `FinishSet`, `FinishClear` or `FinishList`, and the request in between is that of `Client`.
- Execution control of a session (resume, step, pause, threads, stack traces, translation of lost threads): thin wrappers around `send`.
- The reachability probe of `debug_attach` and its hint for television models: I/O.
- A host name that is empty, which the detach handler would take for no host at all.
- LogStream.LinesChunkIndependent: chunks are text; the original decodes each chunk of bytes on its own, so that a character of several bytes that is cut between two chunks is damaged.
- The idle timer of the log stream: `Close` can be called at any time instead. `TelnetClient.tail`: a wrapper around a socket.
- Handlers of the in-process device answer at once; answers that arrive later, in any order, are what `EndToEnd` models.
- Strings are compared by code point; the original compares UTF-16 units, which differs for characters beyond the basic plane.
- Duplicate module ids: the sort and the build require distinct ids.
- Build.BuildCanonical: component files in XML are given by path only, because injected script tags follow the order of the list; that emitted paths are distinct is a condition, not a result.
- EJS templates, TOML, asset handling and the bytes of files: rendered defaults, files and assets are inputs.
- JavaScript prototype keys: records and tables are finite maps, so that a manifest key such as `constructor`, which every object inherits, is an unknown key here.
- A number in a configuration value is given by its decimal text, so that 0 and -0 are one value. Cyclic values are not modelled.
- The guard of the record printer against `undefined` is not modelled, since no field of the record is optional.
- JsonReader.ReadShown: the reader covers the JSON that records are printed in; space between tokens, the literals `true`, `false` and `null`, and pairs of surrogates, which `JSON.parse` reads too, are refused here.
- Recorded keys that are not texts: the original compares them as they are; here they are passed over. No build records any.
- Device discovery, authentication, packaging, documentation search and the tool server: I/O around the modelled parts.

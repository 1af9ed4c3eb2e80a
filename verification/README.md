# Bua runtime: verified models

Bua runs agent scripts. This project models the Rust layers around its JavaScript engine as
Dafny programs and proves what those layers promise: the layered snapshot file, the ESM module
graph, deterministic replay, the promise bridge, the event loop's timers, the module loader's
cache, and capability delegation.

The modules follow the program's files.

| file | models |
|---|---|
| `Crc.dfy`, `ShiftRegister.dfy` | the bitwise CRC-32, and the theory of linear shift registers behind it |
| `Framing.dfy`, `Octet.dfy` | little-endian numbers and the tag/length/payload frames |
| `Snapshot.dfy` | the snapshot writer and parser |
| `Oversize.dfy`, `VmText.dfy` | payloads too long for the length field, and the JSON text of a heap |
| `ModuleGraph.dfy`, `VisitOrder.dfy` | the depth-first evaluation order over a graph that may have cycles, and how the import lists decide it |
| `Json.dfy` | JSON values and their order-independent comparison |
| `Replay.dfy`, `Clock.dfy`, `Interceptor.dfy` | deterministic replay |
| `PromiseBridge.dfy`, `PromiseFuture.dfy` | delivery of promise results, and the waker handshake |
| `EventLoop.dfy` | timers |
| `Loader.dfy` | module resolution and the cache |
| `Capabilities.dfy` | permission checks and delegation |
| `Prelude.dfy` | Option, Result and two predicates on sequences |

How the models are built. Code that changes things step by step is a class or a method with
loops, and its `ensures` ties it to a function of its inputs or of the old state. Whole-run
properties are lemmas about those functions. Where threads interleave (the bridge, the future),
each atomic action of the program is a step, and the lemmas hold for every sequence of steps.

What is a parameter. The JSON codec of the snapshot payloads and the printing and parsing of
JSON text are abstract functions; so are path arithmetic and the transpiler. The wall clock, the
event loop's time, promise identifiers, timer identifiers and file modification times are inputs.

Where the code and its documentation differ, the model follows the code:

- `derive_child` is documented as giving a child no more than its parent has. A parent that holds
  AgentSpawn passes on anything its child asks for (runtime/src/runtime/capability_ctx.rs:138).
  `Capabilities.SpawnRightOverridesTheFilter` is such a case and `Capabilities.ObtainableIff` says
  exactly when a descendant can get a permission.
- The snapshot writer cuts payload lengths to 32 bits (runtime/src/snapshot.rs:326), so a snapshot
  with a payload of 2^32 bytes or more is not what its file restores to.
  `Oversize.RoundTripIffPayloadsFit` says that the round trip holds exactly when all payloads are
  shorter, for codecs that write JSON objects as serde_json does. The premises, in full: every
  written byte is 0x20 or above; a written text has at least five bytes, and none of the second
  to fifth is white space or an opening bracket, since they are a quote and the start of a member
  name; nothing that stops short of the end of a written text reads; and what reads starts with
  white space or an opening bracket. `VmText.OversizePayloadIsLost` is such a case: the default
  snapshot with a heap of 2^31 zero bytes, whose text is longer than 2^32 bytes.
- Replay is documented as never mutating state. A tool whose name the classifier does not list
  passes through, whatever it does (runtime/src/deterministic/interceptor.rs:43).
  `Interceptor.UnlistedWriterPasses` is such a case and `Interceptor.NothingPassesIff` says exactly
  which runs let nothing through.
- The loader's header comment lists extension probing and node_modules. The code looks for index
  files inside each candidate directory before it goes on to the next extension, and has no
  node_modules step (runtime/src/loader.rs:148-177).

## Model

| member | source | states |
|---|---|---|
| Crc.Crc32Simple | runtime/src/snapshot.rs:330-343 | the nested loops compute the specified checksum of any byte string |
| Crc.FeedInPlace | runtime/src/snapshot.rs:333-340 | one byte is taken in by eight register shifts |
| Crc.RegisterIsSerial | runtime/src/snapshot.rs:330-343 | taking in bytes is the same as taking in their bits one at a time, low bit first |
| Crc.BurstChangesCrc | runtime/src/snapshot.rs:330-343 | two different byte strings of equal length that differ only within some 32 consecutive bits, at any bit offset, have different checksums |
| Crc.WindowIsBurst | runtime/src/snapshot.rs:330-343 | byte strings that differ only within four consecutive bytes differ only within 32 consecutive bits, so the above applies |
| Crc.ChecksumClosesToResidue | runtime/src/snapshot.rs:246-249 | a body followed by a little-endian word has checksum 0x2144DF1C exactly when the word is the body's checksum |
| Crc.CheckValue | runtime/src/snapshot.rs:330-343 | the checksum of the ASCII string "123456789" is 0xCBF43926, the published check value of this CRC |
| Crc.WordBytesInvert | runtime/src/snapshot.rs:235-247 | a word written as four little-endian bytes reads back as itself |
| Crc.BytesWordInverts | runtime/src/snapshot.rs:247 | four bytes read as a word are that word's little-endian bytes |
| ShiftRegister.ShiftsAreSerial | runtime/src/snapshot.rs:333-340 | mixing a word in before n shifts feeds its n low bits one by one, for every linear shift register |
| ShiftRegister.SplitKeepsApart | runtime/src/snapshot.rs:330-343 | messages that share a prefix and a suffix and differ first at the start of a middle no longer than the register leave it in different states |
| Framing.LittleEndianTruncates | runtime/src/snapshot.rs:325-326 | k little-endian bytes of n read back as n modulo 256^k: the effect of the `as u32` cast |
| Framing.LittleEndianInverts | runtime/src/snapshot.rs:263-264 | any bytes are the little-endian bytes of the number they read as |
| Framing.FrameSurvivesIffItFits | runtime/src/snapshot.rs:324-328 | a written frame, followed by anything, reads back as itself exactly when its tag fits 16 bits and its payload length fits 32 bits |
| Framing.RawFrameBytes | runtime/src/snapshot.rs:324-328 | the bytes of a written frame one by one: tag low and high, length from the lowest byte, payload |
| Framing.HeadReadsBack | runtime/src/snapshot.rs:324-328 | the tag and length read from a written frame are its own, cut to their widths |
| Framing.SplitIsTheTiling | runtime/src/snapshot.rs:260-300 | the parser's frames and spare bytes are exactly the one way to tile the region with frames and fewer than six spare bytes; it fails exactly when there is none |
| Framing.SplitTiles | runtime/src/snapshot.rs:260-270 | what the parser accepts is a row of frames and fewer than six spare bytes |
| Framing.TilingIsSplit | runtime/src/snapshot.rs:260-270 | any row of frames within the limits, with fewer than six spare bytes, is read back exactly |
| Snapshot.WriteStratumRaw | runtime/src/snapshot.rs:324-328 | appends exactly one raw frame to the buffer |
| Snapshot.WriteStratum | runtime/src/snapshot.rs:318-322 | appends the frame of a present stratum, nothing for an absent one, and fails exactly when its codec does |
| Snapshot.Serialize | runtime/src/snapshot.rs:210-237 | writes the specified file, or fails with the first codec error |
| Snapshot.SerializesIffPartsWrite | runtime/src/snapshot.rs:210-237 | serializing succeeds exactly when the codec writes every present part, and otherwise fails with the error of the first that it does not, by tag |
| Snapshot.FirstError | runtime/src/snapshot.rs:214-232 | the first error there is, or none when no part fails |
| Snapshot.SerializedFrames | runtime/src/snapshot.rs:210-236 | the file has one frame for each present part and for the header, with what its codec wrote, and the tags rise |
| Snapshot.FileStart | runtime/src/snapshot.rs:27-28 | every written file starts with the bytes of BUASNAP, 2 and the version |
| Snapshot.Deserialize | runtime/src/snapshot.rs:239-301 | on every byte string returns the specified snapshot or the specified error, staying in bounds |
| Snapshot.ReadFrames | runtime/src/snapshot.rs:260-301 | the parser loop applies the frames of the region's tiling in order, or reports an overflow when there is none |
| Snapshot.LastFrameDecides | runtime/src/snapshot.rs:271-298 | every field is what the last frame with its tag reads as |
| Snapshot.TrailerIsRightIffResidue | runtime/src/snapshot.rs:246-253 | the stored checksum is right exactly when the checksum of the whole file is 0x2144DF1C |
| Snapshot.RestoresExactlyFiles | runtime/src/snapshot.rs:239-301 | a byte string restores to a snapshot exactly when it is the magic, a version up to 2, frames whose last ones read as that snapshot, fewer than six spare bytes, and the right checksum |
| Snapshot.RestoredFile | runtime/src/snapshot.rs:254-301 | a well-formed file with any version, frames and spare bytes restores to what its last frames say, or is refused for its version |
| Snapshot.OneMoreFrame | runtime/src/snapshot.rs:271-298 | one more frame sets its field to what its payload reads as, to nothing if it does not read, and changes nothing for a tag above 6 |
| Snapshot.NoFrames | runtime/src/snapshot.rs:260-300 | a file without frames restores to a snapshot without parts |
| Snapshot.RefusalsAreExact | runtime/src/snapshot.rs:239-268 | each error is returned exactly under its condition: length, magic, checksum, version, and that no row of whole frames fills the region |
| Snapshot.FramesReadBack | runtime/src/snapshot.rs:210-233 | the frames of a snapshot, with any strata present or absent, read back as that snapshot |
| Snapshot.RoundTrip | runtime/src/snapshot.rs:210-301 | deserializing what serialize wrote gives the same snapshot, for every combination of strata, with an invertible payload codec and payloads below 2^32 bytes |
| Snapshot.RestoredPartsHaveShortReadings | runtime/src/snapshot.rs:264-297 | whatever the codec, what a file restores to has only parts that some bytes shorter than 2^32 read as |
| Snapshot.WordBytesAreLittleEndian | runtime/src/snapshot.rs:235 | the trailer's four bytes are the little-endian bytes of the checksum as a number |
| Snapshot.WordIsLittleEndianValue | runtime/src/snapshot.rs:247 | the word read from the trailer is the little-endian value of its four bytes |
| Oversize.SplitOversize | runtime/src/snapshot.rs:262-270 | a frame of 2^32 bytes or more is read as a proper prefix of its payload, and the rest of the payload as what follows |
| Oversize.HarmlessFrames | runtime/src/snapshot.rs:262-271 | from wherever the parser starts inside frames of object texts, a head with a tag that none of them has is followed by nothing that opens an object or array |
| Oversize.OversizeFrameIsLost | runtime/src/snapshot.rs:260-298 | after whole frames, an oversize frame and more frames of object texts, the part with the oversize tag is absent from what is restored |
| Oversize.FirstOversizeIsLost | runtime/src/snapshot.rs:210-301 | the first part of a snapshot whose payload is too long is missing from what its file restores to |
| Oversize.RoundTripIffPayloadsFit | runtime/src/snapshot.rs:324-328 | with codecs that write objects as JSON does, the round trip holds if and only if every payload is below 2^32 bytes, whichever and however many are not |
| VmText.HeapTextIsDetermined | runtime/src/snapshot.rs:142-148 | no heap's text is the start of another heap's text, so each is read in one way only |
| VmText.HeapCodecIsObjectCodec | runtime/src/snapshot.rs:55-59 | the texts of heap strata, as the builder makes them, meet the premises on codecs and read back |
| VmText.LargeHeapIsLost | runtime/src/snapshot.rs:142-148 | a snapshot with a heap of 2^31 bytes or more, with any other strata, is written and is not what its file restores to |
| VmText.OversizePayloadIsLost | runtime/src/snapshot.rs:326 | the default snapshot with 2^31 zero bytes of heap is written without error and does not come back, under codecs that meet every premise |
| Snapshot.ForwardCompatible | runtime/src/snapshot.rs:294-296 | frames with unknown tags, inserted anywhere in a file with the checksum recomputed, do not change what it restores to |
| Snapshot.CorruptionIsRefused | runtime/src/snapshot.rs:239-253 | any change within 32 consecutive bits of a file with the right trailer is refused, as bad magic or by the checksum |
| Snapshot.ByteCorruptionIsRefused | runtime/src/snapshot.rs:239-253 | any change within four consecutive bytes of a file with the right trailer is refused |
| Snapshot.FilesAreSealed | runtime/src/snapshot.rs:234-249 | every file that serialize writes, restorable or not, and every file that restores has the right trailer |
| Modules.ModuleGraph.Insert | runtime/src/modules/graph.rs:32-36 | files the record under its path and resets that module's edges |
| Modules.ModuleGraph.AddEdge | runtime/src/modules/graph.rs:37-41 | adds exactly one edge at the end of the list, whether or not either end has a record |
| Modules.ModuleGraph.DfsPostOrder | runtime/src/modules/graph.rs:81-107 | terminates on every graph and updates the four collections as the specified visit does |
| Modules.ModuleGraph.EvalOrder | runtime/src/modules/graph.rs:58-80 | an unrecorded entry is an error; otherwise the specified order and cycle list |
| Modules.Visit | runtime/src/modules/graph.rs:89-107 | a visit restores the stack and only adds to what is finished, with keys neither visited nor on the stack as the measure |
| Modules.VisitKeepsInv | runtime/src/modules/graph.rs:81-107 | a visit from any state of a traversal keeps the ordering, closure and cycle invariants, handles its key, and finishes only what the key reaches |
| Modules.FinishedIffReachable | runtime/src/modules/graph.rs:96-103 | a traversal visits exactly the keys reachable from the entry, through keys without records too |
| Modules.OrderIsExact | runtime/src/modules/graph.rs:58-107 | the order holds exactly the recorded modules reachable from the entry, each once, the entry last |
| VisitOrder.OrderIsDecidedByImports | runtime/src/modules/graph.rs:81-107 | of any two modules in the order, on any graph, the one evaluated first is the one the import lists decide, by which import first reaches each outside the modules being visited |
| VisitOrder.EarlierImportsComeFirst | runtime/src/modules/graph.rs:97-101 | the entry's imports are evaluated from first to last: what an earlier one reaches without the entry comes before what only later ones reach |
| VisitOrder.VisitAllFinds | runtime/src/modules/graph.rs:96-103 | visiting imports in turn finishes exactly what they reach outside the modules being visited |
| VisitOrder.BeforeIsTotal | runtime/src/modules/graph.rs:81-107 | the import lists decide between any two reached modules |
| Modules.ImportedModuleComesFirst | runtime/src/modules/graph.rs:97-106 | for a reachable import edge between recorded modules, the imported one comes first unless it leads back: only edges inside a cycle may be out of order |
| Modules.ImportsComeFirst | runtime/src/modules/graph.rs:97-106 | the same along a path, through unrecorded keys too, when nothing on it leads back to its start |
| Modules.ComponentsFinishInOrder | runtime/src/modules/graph.rs:97-103 | the key that completes a strongly connected component finishes after everything a member leads to, directly or not |
| Modules.ComponentsAreOrdered | runtime/src/modules/graph.rs:81-107 | every component of recorded modules has one that comes in the order after the rest of it and after all it imports: across components the order is topological |
| Modules.AcyclicOrderIsTopological | runtime/src/modules/graph.rs:81-107 | with no reachable cycle every module comes after everything it imports, directly or not |
| Modules.EveryCycleIsReported | runtime/src/modules/graph.rs:89-92 | every directed cycle reachable from the entry goes through a reported key |
| VisitOrder.ReportedIffImportedTooEarly | runtime/src/modules/graph.rs:89-92 | a key is reported exactly when a module in the traversal imports it and it is not finished before that module |
| Modules.CyclesAreExact | runtime/src/modules/graph.rs:89-92 | every reported key is reachable and on a cycle, and some key is reported exactly when a cycle is reachable |
| Json.EquivalentIffSameDenotation | runtime/src/deterministic/replay.rs:203-217 | the comparison is exactly equality of JSON trees up to the order of object members at every depth |
| Json.ObjectsAgree | runtime/src/deterministic/replay.rs:205-211 | equal size and one-sided lookup of distinct keys amount to equality of the two member maps |
| Json.OnlyObjectsAreUnordered | runtime/src/deterministic/replay.rs:212-215 | scalars are compared exactly and arrays element by element, in order |
| Json.ReorderedObjectsAreEquivalent | runtime/src/deterministic/replay.rs:205-211 | objects with the same members in any order are equivalent, and in equivalent objects every member has a counterpart |
| Json.EquivalenceRelation | runtime/src/deterministic/replay.rs:203-217 | the comparison is reflexive, symmetric and transitive |
| Replay.ReplayEngine.FromSnapshot | runtime/src/deterministic/replay.rs:80-93 | a fresh engine over the snapshot's tool log, or over an empty one |
| Replay.ReplayEngine.InterceptToolCall | runtime/src/deterministic/replay.rs:101-164 | the new state and the outcome of a call are those of the specified step |
| Replay.ReplayEngine.VerifyComplete | runtime/src/deterministic/replay.rs:167-180 | nothing is reported exactly when no recorded call is left |
| Replay.ReplayEngine.ReplayedResult | runtime/src/deterministic/replay.rs:182-191 | the result is clean exactly when no divergence was noted |
| Replay.PositionsAreExact | runtime/src/deterministic/replay.rs:112-153 | the divergent positions of a run are listed in increasing order, each mismatching or extra call once |
| Replay.RunState | runtime/src/deterministic/replay.rs:106-163 | after k calls the queue is the recording without its first k entries and the divergence list has one entry per divergent call, in call order, in both modes |
| Replay.RunReturns | runtime/src/deterministic/replay.rs:112-162 | call i fails with its own divergence past the recording, and in strict mode when it differs; otherwise it returns the i-th recorded result |
| Replay.CallReturns | runtime/src/deterministic/replay.rs:112-162 | call i fails exactly past the recording or, in strict mode, when tool or arguments differ; otherwise it gets the value its recorded result parses as, or null |
| Replay.DivergenceSays | runtime/src/deterministic/replay.rs:115-141 | a divergence has the recorded tool and arguments as expected, the call's as actual, and the call's number in 64 bits |
| Replay.StrictnessOnlyAffectsReturns | runtime/src/deterministic/replay.rs:142-153 | strict and lax runs end in the same state |
| Replay.CleanIffReproduces | runtime/src/deterministic/replay.rs:101-191 | a run ends clean and complete exactly when its calls match the recording in number, tool and arguments, position by position |
| Replay.SelfReplayIsClean | cli/src/main.rs:307-334 | replaying a recording's own calls, as the verify mode does, ends clean and complete |
| Clock.DeterministicClock.NowUs | runtime/src/deterministic/clock.rs:82-95 | reading and new state in each mode |
| Clock.DeterministicClock.Advance | runtime/src/deterministic/clock.rs:104-112 | moves virtual time, and nothing in live mode |
| Clock.DeterministicClock.SetTime | runtime/src/deterministic/clock.rs:115-118 | sets virtual time only |
| Clock.DeterministicClock.Freeze | runtime/src/deterministic/clock.rs:121-129 | freezes at the current time |
| Clock.SteppingState | runtime/src/deterministic/clock.rs:89-93 | after n readings a stepping clock stands n steps after its start, in 64 bits |
| Clock.SteppingReading | runtime/src/deterministic/clock.rs:89-93 | reading i of a stepping clock is start + i * step, in 64 bits |
| Clock.FrozenReading | runtime/src/deterministic/clock.rs:88 | every reading of a frozen clock is the time it was frozen at |
| Clock.LiveReadings | runtime/src/deterministic/clock.rs:87 | a live clock reads the wall clock each time |
| Clock.NextReadingAfter | runtime/src/deterministic/clock.rs:104-129 | what the next reading is after the clock was set, advanced or frozen |
| Clock.DeterministicIgnoresWallClock | runtime/src/deterministic/clock.rs:82-129 | once frozen or stepping, no sequence of operations makes a reading depend on the wall clock |
| Interceptor.IoInterceptor.InterceptCall | runtime/src/deterministic/interceptor.rs:87-125 | the answer and the new state of engine and clock are those of the specified step |
| Interceptor.IoInterceptor.DeactivateNow | runtime/src/deterministic/interceptor.rs:128-130 | clears the active flag and nothing else |
| Interceptor.RunRefinesParts | runtime/src/deterministic/interceptor.rs:87-130 | any mixed run, deactivated anywhere, leaves the replay engine as its read and network calls alone would and the clock as its time queries alone would |
| Interceptor.AnswersRefineParts | runtime/src/deterministic/interceptor.rs:87-130 | each answer of a run is what the engine alone, the clock alone, or the write policy gives |
| Interceptor.OnlyPureCallsPass | runtime/src/deterministic/interceptor.rs:88-110 | a call passes through exactly when its tool is classed as pure or the interceptor was deactivated, so no listed write passes |
| Interceptor.NothingPassesIff | runtime/src/deterministic/interceptor.rs:37-45 | a run lets no call through exactly when none comes after a deactivation and every tool name is one of the eight the classifier lists |
| Interceptor.UnlistedWriterPasses | runtime/src/deterministic/interceptor.rs:43 | an active interceptor passes a tool named bua_append_file through to live execution |
| Interceptor.AnswerIsDecidedByName | runtime/src/deterministic/interceptor.rs:37-125 | before any deactivation: four named tools are answered from the recording, three are held back and change nothing, one gets the clock, and no others do |
| Interceptor.RecordingIsConsumedByName | runtime/src/deterministic/interceptor.rs:37-125 | after any run the recording left and the divergences noted are those of the calls with the four replayed names alone |
| Interceptor.ReplayedCallGets | runtime/src/deterministic/interceptor.rs:112-123 | in any mixed run the k-th replayed call gets the k-th recorded result or its own divergence |
| Interceptor.FromClockTellsTime | runtime/src/deterministic/clock.rs:98-100 | the answer of a time query is the reading in milliseconds |
| Interceptor.TimeQueryGets | runtime/src/deterministic/interceptor.rs:95-99 | in any mixed run the k-th time query on a stepping clock reads start + k * step, in 64 bits |
| Interceptor.CleanRunIff | runtime/src/deterministic/interceptor.rs:112-123 | an intercepted run replays clean and complete exactly when its read and network calls reproduce the recording |
| Bridge.ResolutionQueue.Push | runtime/src/promise/queue.rs:73-77 | appends one resolution and counts it |
| Bridge.ResolutionQueue.Drain | runtime/src/promise/queue.rs:82-96 | returns the whole queue, oldest first, empties it and counts what it took |
| Bridge.PromiseBridge.SpawnTask | runtime/src/promise/bridge.rs:102-110 | the caller's two atomic effects, in order |
| Bridge.PromiseBridge.FinishTask | runtime/src/promise/bridge.rs:118-136 | a value resolves and an exception rejects the promise, by the task's three atomic effects in order |
| Bridge.PromiseBridge.DrainResolutions | runtime/src/promise/bridge.rs:163-165 | takes the queue and counts it |
| Bridge.AlwaysInv | runtime/src/promise/bridge.rs:98-140 | every state reachable under any interleaving keeps the pushed order, the counters and the pending map exact |
| Bridge.DeliveredExactlyOnceInOrder | runtime/src/promise/bridge.rs:98-140 | drained batches, then the batch in hand, then the queue are the push order; each settled promise is in it exactly once with its own handle and outcome, an unsettled one not at all |
| Bridge.CountersBalance | runtime/src/promise/queue.rs:73-96 | drained plus in hand plus queued equals enqueued plus tasks between their push and its count |
| Bridge.MissingFromPendingIsSettled | runtime/src/promise/bridge.rs:135-136 | a promise missing from the pending map has not been entered yet, or its outcome is queued, in hand or drained |
| Bridge.QuietMeansAllDelivered | runtime/src/promise/bridge.rs:135-170 | with nothing pending, queued or in hand, every entered promise's outcome has been drained, once |
| Bridge.HandlesSettleOnce | runtime/src/promise/bridge.rs:120-135 | promises with distinct handles never settle a handle twice |
| Bridge.TaskIsNeverStuck | runtime/src/promise/bridge.rs:98-137 | a task that has not ended can take its next step, or a drain holds the queue and can finish |
| Bridge.UndisturbedTaskDelivers | runtime/src/promise/bridge.rs:98-165 | a task run from start to end and drained is delivered with its own handle and outcome, after all that was queued before |
| Bridge.HistoryGrows | runtime/src/promise/queue.rs:82-96 | no later step takes back or reorders what was pushed or drained |
| PromiseFuture.FutureState.Complete | runtime/src/promise/future.rs:58-64 | stores the value over any earlier result and hands out the waiting waker once |
| PromiseFuture.FutureState.Fail | runtime/src/promise/future.rs:67-73 | the same for an exception |
| PromiseFuture.FutureState.PollOnce | runtime/src/promise/future.rs:84-92 | takes a stored result, or leaves a waker and returns pending |
| PromiseFuture.AlwaysMatch | runtime/src/promise/future.rs:56-93 | in every interleaving the two slots are determined by what was observed |
| PromiseFuture.NoLostWakeUp | runtime/src/promise/future.rs:56-93 | while a settlement is stored and not taken, the last pending poll has been woken by its own waker |
| PromiseFuture.PollYieldsTheHeldSettlement | runtime/src/promise/future.rs:84-92 | a poll is ready with a result exactly when that is the last settlement and nothing has taken it |
| PromiseFuture.EachSettlementIsTakenOnce | runtime/src/promise/future.rs:84-92 | between two ready polls there is a new settlement, the one the second returns |
| Timers.EventLoop.SetTimeout | runtime/src/event_loop.rs:66-77 | a new one-shot entry |
| Timers.EventLoop.SetInterval | runtime/src/event_loop.rs:80-91 | a new interval entry |
| Timers.EventLoop.ClearTimer | runtime/src/event_loop.rs:94-98 | deactivates a known timer and nothing else |
| Timers.EventLoop.FireExpiredTimers | runtime/src/event_loop.rs:156-177 | sends exactly the due timers, lowest id first, and reschedules or ends exactly those |
| Timers.EventLoop.HandleTimer | runtime/src/event_loop.rs:136-146 | reschedules or ends a timer that is still active |
| Timers.FirePassIsExact | runtime/src/event_loop.rs:156-177 | a fire pass emits every due timer once, in order of id, and no other |
| Timers.NothingDueUntilTimeMoves | runtime/src/event_loop.rs:165-176 | after a fire pass, whatever else happens at that time, no timer with a positive period or none is due |
| Timers.AlwaysInv | runtime/src/event_loop.rs:136-177 | what every run keeps: past emissions are not early, and have moved or ended their timers |
| Timers.OneShotFiresOnce | runtime/src/event_loop.rs:169-175 | a one-shot timer is emitted at most once in any run |
| Timers.IntervalsAreSpaced | runtime/src/event_loop.rs:136-177 | two emissions of an interval timer are at least one period apart |
| Timers.NeverEarly | runtime/src/event_loop.rs:66-91 | no timer is emitted before its first deadline |
| Timers.DueTimerHasFired | runtime/src/event_loop.rs:156-177 | an active timer that is not cleared or handled has been emitted once a fire pass comes at or after its deadline, whatever happens to other timers |
| Timers.TimeoutFires | runtime/src/event_loop.rs:66-77 | a timeout that is not cleared or handled is emitted by the first fire pass after its delay, and exactly once |
| Timers.IntervalStarts | runtime/src/event_loop.rs:80-91 | a new interval is active and due one period later |
| Timers.IntervalStaysActive | runtime/src/event_loop.rs:136-177 | an interval that is not cleared stays active with its period, its deadline at most a period away |
| Timers.IntervalKeepsFiring | runtime/src/event_loop.rs:169-171 | an active interval that is not cleared or handled is emitted in every stretch of a period or longer, by the next fire pass |
| Timers.HandlingRestarts | runtime/src/event_loop.rs:136-146 | handling an active interval sets its deadline a period ahead and moves no other timer |
| Timers.OnlyForward | runtime/src/event_loop.rs:94-177 | over any continuation a deadline never moves back, an inactive timer is never revived or emitted, and emissions stay |
| Timers.ClearedNeverFires | runtime/src/event_loop.rs:94-98 | a cleared timer is never emitted again |
| Loader.ProbeExtensions | runtime/src/loader.rs:142-182 | the search loop finds the first of the specified places that exists, or fails when none does |
| Loader.ProbeEach | runtime/src/loader.rs:149-177 | the outer loop finds the first place, extension by extension, that hits |
| Loader.ProbeIndex | runtime/src/loader.rs:169-175 | the inner loop finds the first index file of a directory |
| Loader.FirstHitIsFirst | runtime/src/loader.rs:150-177 | a result is the first place that hits, with none before it; no result means no place hits |
| Loader.FirstEndingWins | runtime/src/loader.rs:149-166 | a file is found under the first of the seven endings it has, when nothing is under an earlier one |
| Loader.DirectoryGivesIndex | runtime/src/loader.rs:168-176 | a directory with something named index.ts in it resolves to that |
| Loader.PlacesInOrder | runtime/src/loader.rs:150-176 | for each extension the file is tried, then its four index files in order |
| Loader.RelativeToReferrer | runtime/src/loader.rs:56-60 | a relative specifier is looked up beside its referrer, whatever the base directory |
| Loader.RelativeToBase | runtime/src/loader.rs:57 | without a referrer, or one without a parent, it is looked up in the base directory |
| Loader.AbsoluteAsItStands | runtime/src/loader.rs:51-53 | an absolute specifier is looked up as it stands, whatever the referrer and the base directory |
| Loader.SearchIsUnique | runtime/src/loader.rs:142-182 | looking in a row of places has one result |
| Loader.OtherSpecifiers | runtime/src/loader.rs:63-69 | built-in names resolve without files, and all other specifiers fail |
| Loader.ModuleLoader.Resolve | runtime/src/loader.rs:49-70 | resolution of absolute, relative and built-in specifiers, and the error for others |
| Loader.ModuleLoader.Load | runtime/src/loader.rs:73-127 | the result and the new cache are those of the specified cached load |
| Loader.ModuleLoader.InvalidateAll | runtime/src/loader.rs:130-133 | empties the cache |
| Loader.LoadGives | runtime/src/loader.rs:89-109 | an uncached load gives the file's text, or the transpiler's output for it where the path asks for that, and each failure its error |
| Loader.LoadedIsCached | runtime/src/loader.rs:104-123 | a successful load leaves a fresh entry with what it returned; a failed one and all other entries change nothing |
| Loader.InvalidatingForgets | runtime/src/loader.rs:130-133 | after invalidation no module is cached and the files are as they were |
| Loader.NextIsSound | runtime/src/loader.rs:73-133 | loads, invalidations, deletions and time-raising writes keep the cache sound |
| Loader.CacheIsTransparent | runtime/src/loader.rs:73-133 | after any history of those, a cached load gives the same path, source, transpiled flag or error as a load without a cache |
| Loader.CachedLoadAgreesIff | runtime/src/loader.rs:76-86 | for any cache, a load through it differs from one without it exactly when its entry counts as fresh and is not what the file holds |
| Loader.UnraisedWriteGoesUnseen | runtime/src/loader.rs:80-82 | the premise is needed: after a write that does not raise the modification time the old text is served |
| Capabilities.CheckIsMonotone | core/src/capabilities.rs:97-141 | more capabilities never satisfy fewer permissions |
| Capabilities.WildcardMatchesSubdomains | core/src/capabilities.rs:164-173 | `*.d` matches d and the names ending in `.d`, and nothing else |
| Capabilities.HostMatchesIff | core/src/capabilities.rs:164-173 | `*` matches every host, and a pattern that is no wildcard matches itself only |
| Capabilities.CheckIff | core/src/capabilities.rs:97-141 | which capabilities it takes to have each of the six permissions |
| Capabilities.CapabilityContext.Require | runtime/src/runtime/capability_ctx.rs:62-84 | the verdict is the check's, and every request is logged with it while auditing is on |
| Capabilities.CapabilityContext.Grant | runtime/src/runtime/capability_ctx.rs:93-95 | adds one capability |
| Capabilities.CapabilityContext.Revoke | runtime/src/runtime/capability_ctx.rs:98-103 | removes one capability, and counts a generation exactly if it was held |
| Capabilities.CapabilityContext.RevokeAll | runtime/src/runtime/capability_ctx.rs:106-109 | removes everything and counts a generation |
| Capabilities.CapabilityContext.DeriveChild | runtime/src/runtime/capability_ctx.rs:128-149 | a new context with the filtered set, leaving the parent unchanged |
| Capabilities.DescendantsStayWithin | runtime/src/runtime/capability_ctx.rs:128-149 | from a root without AgentSpawn or Unrestricted, no run of derivations and revocations gives any descendant a capability the root lacked |
| Capabilities.DerivedIff | runtime/src/runtime/capability_ctx.rs:132-141 | a child has exactly what it asks for that its parent has, or all it asks for if the parent holds AgentSpawn or Unrestricted |
| Capabilities.StepsAreLocal | runtime/src/runtime/capability_ctx.rs:93-149 | a revocation changes the named context only, by the named capability only, and a derivation changes none |
| Capabilities.SpawnRightOverridesTheFilter | runtime/src/runtime/capability_ctx.rs:138 | a child of a parent with AgentSpawn that has a permission its parent lacks |
| Capabilities.ObtainableIff | runtime/src/runtime/capability_ctx.rs:128-149 | some run of derivations and revocations obtains a permission exactly when the root has it or holds AgentSpawn |

## Left out

- Oversize.RoundTripIffPayloadsFit: its premises on the codec, listed above, are facts about JSON text and the member names of the strata. They are proved for heap strata (`VmText.HeapCodecIsObjectCodec`); serde_json itself is not part of this model. `Snapshot.RoundTrip`, the "if" half, needs only invertibility, and `Snapshot.RestoredPartsHaveShortReadings` needs nothing.
- VmText.HeapCodecIsObjectCodec: covers strata with the fixed engine version the builder puts in, so string escapes do not occur.
- Snapshot.Deserialize: offsets are unbounded, as with a 64-bit `usize`; the wrap-around of `pos + len` on a 32-bit target is not modelled.
- Clock.DeterministicClock.NowUs: additions wrap at 64 bits as in a release build; the overflow panic of a debug build is not modelled. Milliseconds are exact reals, not rounded to `f64`.
- Json.EquivalentIffSameDenotation: floats are exact reals, and objects have distinct keys, as those of serde_json have.
- Replay.ReplayEngine.InterceptToolCall: one caller at a time. The sequence number is taken before the queue lock, so concurrent callers could note divergences out of order.
- Bridge.PromiseBridge.SpawnTask: the identifier is an input, and only fresh ones are used by the protocol; the counters are unbounded. That a future ever finishes is not modelled.
- Timers.EventLoop.FireExpiredTimers: the channel is unbounded, and sending never waits or fails; the table is read in order of id, as a sorted map lists it. That the loop runs again in time is not modelled.
- Loader.ModuleLoader.Load: a load is one step, so files do not change under it, and every file has a modification time. The cached specifier is the first loader's spelling and is not compared.
- Capabilities.CapabilityContext.DeriveChild: the set is a value held in the context's field, and its generation is unbounded.
- Modules.ModuleGraph.DfsPostOrder: a module is identified with its path, as for UTF-8 paths; stack depth is not bounded.
- The JavaScript engine boundary, the JSON text format, path normalisation, the TypeScript transpiler, identifiers and clocks.
- Trace and audit read-outs, metrics, builders, statistics and failure listings of the module graph, stale-promise listing, the scheduler, the legacy snapshot, and file and network I/O.

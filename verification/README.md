# Verification of the NMEA 2000 library

A Dafny model of the parts of the library whose guarantees run over whole runs
or unbounded inputs, with proofs of those guarantees.

* **Address claiming.** `NodeModel` is one node as a state machine over values,
  `Node` the same node as an object with in-place fields and three maps, proved
  against it. `DeviceIndex` and `DeviceLog` are the index of observed devices,
  `NodeLog` ties it to the runs of a node.
  `ClaimNetwork` puts any number of nodes on a bus; `ClaimConvergence` shows
  that fixed-address nodes settle. `DeviceName` is the 64-bit NAME.
* **Fast packets.** `FastPacket` and `Reassembly` specify frames, sequences and
  keyed reassembly; `FrameAssembly` has the objects; `CanId`, `FastBits`,
  `Framing` and `CanAdapter` cover identifiers, the fast-PGN table, and both
  directions of the adapter.
* **Service.** `MessageQueue` is the compacting queue. `ServiceLifecycle` is the
  service with its API calls and goroutines as a state machine,
  `LifecycleSafety` its invariants, `StopTermination` how long Stop waits,
  `Restarts` the question who hears whom; `RunHistory`, `MessageHistory` and
  `EndpointCloses` say what results, counts and closes tell about the run.
* **Field codec.** `Bits` and `BitStream` are words and streams bit by bit;
  `BinaryData` is whole-byte fields, `DataStream` the cursor object; `FieldSpecs` the generator's constants,
  `FieldCodec` the value arithmetic over words of any width, `WordArithmetic`
  its two's complement, `FieldRoundTrips` and `FieldPatterns` what survives, and
  `FieldStream` the read and write methods in 64-bit words.
* **Configuration fields.** `StringLau` is the text encoding, `ConfigFields` the
  group functions that write and read the configuration.

Machine integers are numbers with their width written out (`Low`, `Wrap`,
`Add8`); bit operations are defined on naturals by halving, and `BitAt` reads a
bit. `dafny verify dfyconfig.toml` checks everything.

## What the proofs found

* `ClaimAddress` on a claimed node leaves the claimed flag raised while the new
  claim is still waiting, so the node writes from the new address before the
  250 ms have passed (`NodeModel.FlagAgreesUnlessReclaiming`).
* Restarting the same endpoint shares its output object with the generation
  before it. If that generation's watcher, or a caller of Stop or
  UpdateEndpoint, is late to mute the output, the new generation runs and
  receives nothing (`Restarts.RestartCanBeDeaf`); nothing else can do that
  (`Restarts.OnlyLateMutesDeafen`).
* The catalog's signed 32-bit power fields have an offset of -2000000000 and an
  `int32` type. Patterns with wire values below -147483648 decode to a number
  that the conversion to `int32` turns into another one, and encode to another
  pattern (`FieldPatterns.PowerPatterns`).
* A raw log line of 224 to 255 bytes is split into frames whose number wraps at
  32, and never reassembles (`Framing.RawLineReassembles`).
* A text that ends in a zero byte loses that byte in STRING_LAU
  (`StringLau.TextRoundTripsIff`), and a UTF-16 text may be accepted by a write
  and be too long to be read back (`ConfigFields.AcceptedButTooLong`).
* A device that reported an empty PGN list before anybody claimed its address
  has no list after the claim (`DeviceIndex.ClaimKeepsFacts`).

## Assumptions

* One step of a node is one event (an API call, a received PGN or a claim tick)
  followed by the pass of its loop; the windows between separately locked
  sections of one handler are not modelled.
* Inboxes do not overflow, a node does not hear its own claims, and
  `SetDeviceInfo` is not called while a node runs. That commanded addresses are
  at most 253 follows from the field's spec (`FieldPatterns.AddressFieldIsReal`).
* Sources of device reports and claims in the index are at most 253 and NAMEs
  are not 0.
* In the service, a call through `closeOnce` is one step, and so is the exit of
  the processor: failed dequeue, discard, clearing its registration. An endpoint
  and its output go by the number of the installation.
* Whether a queued message is late is decided by the clock; the lifecycle leaves
  it open, the queue takes times as arguments.

## Model

| member | source | states |
|---|---|---|
| ClaimNetwork.ConflictsAreBeingResolved | pkg/node/node.go:996-1044 | for any number of nodes with distinct NAMEs, any run of API calls, deliveries, claim ticks and foreign traffic: two active nodes on one address always have an undelivered claim of one of them in the inbox of the other |
| ClaimNetwork.StepKeepsSafe | pkg/node/node.go:1479-1509 | every single step of every party keeps that invariant together with the invariant of each node |
| ClaimNetwork.StayedOrAnnounced | pkg/node/node.go:1313-1330 | a node active after its step either put a claim for its address into every other started inbox in that step, or was already there and did not just hear a claim for that address |
| ClaimNetwork.WhoHears | pkg/node/node.go:1313-1330 | the claims of a step are heard by every other started node, after what it had yet to hear, and by nobody else |
| ClaimNetwork.DrainedMeansUnique | pkg/node/node.go:1533-1540 | whenever all started nodes have heard everything sent so far, no two active nodes share an address |
| ClaimConvergence.QuietRunsEnd | pkg/node/node.go:996-1044 | with nodes that cannot choose another address, every schedule of deliveries and claim ticks is bounded by a measure of the network it starts from |
| ClaimConvergence.QuietStepLowersMeasure | pkg/node/node.go:1006-1043 | a delivered claim provokes at most one answer, by a smaller NAME, so that the rank weights W(r+1) = 1 + (N-1) W(r) over undelivered claims, then the ticking nodes, strictly decrease |
| ClaimConvergence.AnswerIsLighter | pkg/node/node.go:1038-1042 | the copies of an answer to the other nodes weigh strictly less than the message that provoked it |
| ClaimConvergence.RestIsReached | pkg/node/node.go:996-1044 | from any converging network some schedule of deliveries and ticks alone, within the measure, ends at rest |
| ClaimConvergence.RestIsResolved | pkg/node/node.go:1533-1540 | a network with no delivery or tick left has unique, claimed addresses, and any other network has a step to take |
| ClaimConvergence.SmallestNameKeepsTheAddress | pkg/node/node.go:1015-1042 | the smallest NAME on an address keeps it through every schedule and at rest has it alone |
| ClaimConvergence.EveryHistoryConverges | pkg/node/node.go:996-1044 | after any history of API calls, commands and genuine traffic such nodes converge: every schedule of deliveries and ticks stays within a bound, has a next step unless the network is at rest with every active node on a claimed address of its own, and can be continued until it is |
| NodeModel.StepKeepsSettled | pkg/node/node.go:1468-1554 | every step keeps: read-only exactly when unclaimed, then with address 255; claimed only while Claiming or Claimed on an address up to 253; a waiting started node ticks on its preferred address |
| NodeModel.ReachableIsSettled | pkg/node/node.go:174-202 | that invariant holds in every state a new node reaches |
| NodeModel.OutputsCarryTheAddress | pkg/node/node.go:502-522 | everything published carries the current address as source, and nothing is published while read-only |
| NodeModel.HearingAClaim | pkg/node/node.go:996-1044 | the full outcome of a heard claim: ignored off our address, answered by one claim when our NAME is not larger, else the next free address is claimed or the node falls silent |
| NodeModel.YieldingSettles | pkg/node/node.go:1015-1037 | where a node that lost its address ends up after the pass of the loop, and the one claim it then sends |
| NodeModel.LoserMovesOn | pkg/node/node.go:1015-1037 | a node that loses its address and may choose another is next on the nearest address without a known device, and one that may not or finds none is lost on 255 |
| NodeModel.StartingANode | pkg/node/node.go:276-357 | a node that has a claim pending when it starts announces it on the preferred address; any other starts in silence |
| NodeModel.AcceptedCalls | pkg/node/node.go:395-426 | exactly which claims, starts, stops and writes are accepted; a refused call changes and publishes nothing |
| NodeModel.StoppingForgets | pkg/node/node.go:359-393 | Stop resets the claim, and leaves identity, preferred address and index |
| NodeModel.RequestsAreAnswered | pkg/node/node.go:606-720 | which messages answer an ISO request, from the node to the asker, and that a node which is not addressed or may not write does not answer |
| NodeModel.ClaimingAnAddress | pkg/node/node.go:395-426 | an accepted claim puts a started node on the preferred address, announced unless it is already waiting on it, and the next tick claims it |
| NodeModel.ObeyingACommand | pkg/node/node.go:966-994 | a commanded address moves exactly the writing node whose NAME less its top bit it carries, which announces it unless it is already claiming it; a command without an address, or for another NAME, changes nothing |
| NodeModel.ReadOnlyIsSilent | pkg/node/node.go:396-409 | read-only mode and Stop silence a node until the next accepted claim |
| NodeModel.ActiveOnlyByClaiming | pkg/node/node.go:1479-1509 | a node is on an address after a step only by announcing it in that step or by having been there undisturbed |
| NodeModel.FlagAgreesUnlessReclaiming | pkg/node/node.go:395-426 | the claimed flag agrees with the Claimed state after a step if and only if the step is not an accepted claim by a node that was claimed |
| NodeModel.ReclaimingWritesEarly | pkg/node/node.go:502-522 | the counterexample: a node claimed on 5 that asks for 7 may at once write from 7 |
| NodeModel.NextAvailableIsFirst | pkg/node/node.go:1196-1218 | the search yields the address nearest after the lost one, in cyclic order over 0..253, on which no device is known, never the lost one, and fails exactly when a device is known on every other address |
| Node.Node.constructor | pkg/node/node.go:174-202 | a new node has the initial state and has published nothing |
| Node.Node.RequestAddress | pkg/node/node.go:395-426 | the in-place fields after ClaimAddress are those of the node machine |
| Node.Node.UpdateKnownDeviceFromClaim | pkg/node/node.go:1046-1087 | the three maps after a claim are those of the index specification; no other field changes |
| Node.Node.KnownDeviceForAddress | pkg/node/node.go:1220-1228 | finds the record that the index specification assigns to an address |
| Node.Node.SetKnownDeviceForAddress | pkg/node/node.go:1230-1238 | stores a record under its NAME, or as unknown under its address |
| Node.Node.UpdateKnownDeviceFromReport | pkg/node/node.go:1089-1194 | product, configuration and PGN-list reports merge into the right record |
| Node.Node.NextAvailableAddress | pkg/node/node.go:1196-1218 | the loop over candidates finds the nearest address after the lost one without a known device, and fails exactly if there is none |
| Node.Node.YieldAddress | pkg/node/node.go:1015-1037 | giving way changes the fields as the node machine says |
| Node.Node.ProcessIsoAddressClaim | pkg/node/node.go:996-1044 | hearing a claim updates index, state and published messages as the node machine says |
| Node.Node.ProcessIsoCommandedAddress | pkg/node/node.go:966-994 | a commanded address changes the fields exactly when it names the node |
| Node.Node.ProcessIsoRequest | pkg/node/node.go:606-720 | the responses to an ISO request, in order, are those the node machine gives |
| Node.Node.ProcessPgn | pkg/node/node.go:1418-1446 | every handled PGN goes to its handler and has its effect |
| Node.Node.EvaluateClaim | pkg/node/node.go:1479-1509 | the pass of the loop starts, restarts or stops the ticker and announces the address it moves to |
| Node.Node.HandleEvent | pkg/node/node.go:1468-1554 | one event and the pass it wakes are one step of the node machine, on the object; the node invariant is kept, and what the step publishes carries the address the object then has |
| Node.Drive | pkg/node/node.go:1468-1554 | a new object, configured and then driven through any run of events, ends settled in the state the node machine reaches, with the index that the log of heard claims and reports gives |
| Node.Observe | pkg/node/node.go:443-463 | what a node lists after any run: for every address one device if and only if the log has somebody there, with the name, address and facts the log has for it, sorted |
| NodeLog.IndexOfARun | pkg/node/node.go:1418-1446 | after any run of calls, claims, commands, requests, reports and restarts the index is the replay of the heard claims and reports; nothing else changes it |
| Node.Node.WriteTo | pkg/node/node.go:498-523 | a write is accepted exactly while claimed and not read-only, and published under the current address |
| Node.Node.StartNode | pkg/node/node.go:276-357 | starting sets the started flag with no ticker and refuses a second start; the pass of the loop is part of HandleEvent |
| Node.Node.StopNode | pkg/node/node.go:359-393 | stopping resets the claim fields |
| Node.Node.KnownDevices | pkg/node/node.go:443-463 | lists exactly the records on real addresses, sorted, each address at most once |
| DeviceIndex.ClaimKeepsConsistency | pkg/node/node.go:1046-1087 | a claim keeps the address map the inverse of the recorded addresses and disjoint from the unknown records |
| DeviceIndex.ReportKeepsConsistency | pkg/node/node.go:1089-1194 | so does a report |
| DeviceIndex.ClaimMovesTheParties | pkg/node/node.go:1060-1071 | a claim moves the claiming NAME to its address, the displaced one to 255, and nobody else |
| DeviceIndex.ClaimKeepsFacts | pkg/node/node.go:1055-1058 | a claiming NAME keeps its facts and inherits those of the unknown record it absorbs, except that an empty PGN list becomes an absent one; nobody else loses any |
| DeviceIndex.CloneShows | pkg/node/node.go:1265-1278 | a caller sees the name, the address and every fact of a record, an empty PGN list as none |
| DeviceIndex.ReportReachesItsDevice | pkg/node/node.go:1220-1238 | a report lands in the record of the NAME that holds its source, else in the unknown record, and changes no other |
| DeviceLog.IndexIsFoldOfLog | pkg/node/node.go:1046-1087 | after any log of claims and reports the index is a fold of it: a NAME is at its last claimed address unless another NAME claimed it later, then at 255; the address map inverts this; unknown records are exactly the unclaimed reporters |
| DeviceLog.FactsAreFoldOfLog | pkg/node/node.go:1046-1194 | after any log the facts are a fold of it too: what a NAME reported from the addresses it held, over what had been learnt at the addresses it claimed; an unknown record has what was reported from its address since |
| DeviceLog.LastReportIsRecorded | pkg/node/node.go:1089-1194 | the last report of a kind that a NAME made from an address it held is what its record says after the whole log |
| DeviceLog.RecordedAddressStep | pkg/node/node.go:1060-1071 | one more log entry moves at most the claiming NAME and the one it displaces |
| FastPacket.HeaderBits | internal/pkt/pkt.go:82-85 | the masks and the shift take sequence id and frame number out of the header byte |
| FastPacket.HeaderByte | internal/adapter/canadapter/canadapter.go:158 | the shift and the or put them in, and they come out again |
| FastPacket.ContinuationCount | internal/adapter/canadapter/canadapter.go:126-135 | the number of continuation frames is the least that carries the rest, and at most 31 exactly up to 223 bytes |
| FastPacket.AddKeepsConsistent | internal/adapter/canadapter/sequence.go:44-71 | under any frame: nothing stored without frame 0, else received is 6 plus 7 per stored continuation frame and at most 223, so the byte never wraps |
| FastPacket.GatherJoins | internal/adapter/canadapter/sequence.go:76-100 | gathering stops at the first and no shorter stored prefix that is long enough, or at the first gap before there is one |
| FastPacket.DeliveryIsStored | internal/adapter/canadapter/sequence.go:76-100 | a delivered payload is the first expected bytes of consecutive stored frames from frame 0 on |
| FastPacket.FinishMeans | internal/adapter/canadapter/sequence.go:76-100 | a sequence waits while too few bytes are in; then it fails exactly if a frame that the length calls for is missing, and else delivers the expected number of bytes, each from its frame and place |
| Reassembly.FeedKeepsConsistent | internal/adapter/canadapter/sequence.go:44-111 | noise keeps the sequence invariant and never delivers more than 223 bytes |
| Reassembly.MessageDeliversOnce | internal/adapter/canadapter/sequence.go:44-111 | from any consistent state, frame 0 and then the continuation frames in any order deliver nothing until the last frame and then exactly the payload |
| Reassembly.GapEndsTheMessage | internal/adapter/canadapter/sequence.go:76-100 | a message with a gap delivers nothing and leaves nothing |
| Reassembly.RepeatedFrameEndsTheMessage | internal/adapter/canadapter/sequence.go:60-66 | after a repeated or stray continuation frame nothing is delivered and nothing kept until the next frame 0 |
| Reassembly.RepeatedFrameSilencesTheKey | internal/adapter/canadapter/multibuilder.go:42-73 | so too for the frames of one key within any traffic |
| Reassembly.KeysAreIndependent | internal/adapter/canadapter/multibuilder.go:42-73 | whatever arrives, the sequence of a key sees exactly the frames of that key |
| Reassembly.MessagesAreReassembled | internal/adapter/canadapter/multibuilder.go:42-73 | from any consistent builder, a message interleaved with any frames of other keys is delivered exactly once, byte for byte, when its last frame arrives, and its sequence is gone |
| Reassembly.ProcessingKeepsConsistent | internal/adapter/canadapter/multibuilder.go:42-53 | every builder reached by any stream is consistent |
| FrameAssembly.Packet.constructor | internal/pkt/pkt.go:56-78 | a packet has parse errors exactly when its PGN is zero or its data empty |
| FrameAssembly.Packet.GetSeqFrame | internal/pkt/pkt.go:82-85 | sets sequence id and frame number from the first data byte |
| FrameAssembly.VerdictsSettle | internal/adapter/canadapter/sequence.go:76-100 | a packet is complete exactly with a delivered payload, which replaces its data, and gets a parse error exactly for a gap |
| FrameAssembly.Sequence.AddPacket | internal/adapter/canadapter/sequence.go:44-71 | the fields and the contents array after a frame are those of the specification |
| FrameAssembly.Sequence.Complete | internal/adapter/canadapter/sequence.go:76-100 | the gathering loop finishes, notes a gap or delivers exactly as the specification says |
| FrameAssembly.Sequence.Reset | internal/adapter/canadapter/sequence.go:104-111 | clears every field and slot |
| FrameAssembly.MultiBuilder.SeqFor | internal/adapter/canadapter/multibuilder.go:55-73 | finds or creates the sequence of a key without disturbing any other |
| FrameAssembly.MultiBuilder.AddPacket | internal/adapter/canadapter/multibuilder.go:42-53 | the nested maps of sequences behave as one map from keys to sequence states |
| CanId.IdRoundTrip | internal/converter/converter.go:151-168 | decoding an encoded identifier returns PGN, source and priority, and the target or 255 for global PGNs |
| CanId.EncodedFields | internal/converter/converter.go:151-168 | the identifier is the sum of its disjoint fields, the target taking the low byte of PGNs with a format below 240 |
| CanId.DecodedFields | internal/converter/converter.go:206-224 | the masks and shifts take the fields out |
| CanId.DecodedArithmetic | internal/converter/converter.go:206-224 | what any 32-bit identifier decodes to, field by field |
| FastBits.GenerateFastBits | cmd/pgngen/main.go:1186-1207 | the generated table has bit k set exactly when some definition of number 126208+k is marked fast |
| FastBits.IsFastMeansMarked | internal/pgn/pgn.go:17-32 | IsFast over that table is true exactly for numbers in 126208..131071 that some definition marks fast |
| Framing.FramesSpellTheMessage | internal/adapter/canadapter/canadapter.go:155-195 | the bodies of the frames spell the payload followed by less than one frame of padding |
| Framing.FramesAreNumbered | internal/adapter/canadapter/canadapter.go:156-163 | the frames carry the sequence id, are numbered from 0, and frame 0 tells the length |
| Framing.IdsCountModuloSeven | internal/adapter/canadapter/canadapter.go:146-154 | the i-th message of one source and PGN carries the sequence id i modulo seven, counted from the last used id or zero |
| Framing.SevenMessagesDiffer | internal/adapter/canadapter/canadapter.go:146-154 | any seven consecutive accepted messages of one source and PGN carry distinct sequence ids, whatever else is sent meanwhile |
| Framing.FastMessageArrives | internal/adapter/canadapter/canadapter.go:74-197 | a fast message written by one adapter and received by another in any consistent state arrives once with PGN, source, priority, target and exact payload |
| Framing.SingleMessageArrives | internal/adapter/canadapter/canadapter.go:200-220 | a single-frame message states its length, arrives padded with 0xFF to eight bytes and leaves the builder alone |
| Framing.ZeroPgnIsFaulty | internal/adapter/canadapter/canadapter.go:74-85 | a frame under PGN zero is handed on unchanged and marked as faulty |
| Framing.RawFramesSpellTheLine | internal/converter/converter.go:74-132 | the frames of a long log line spell its bytes and then zeros, state its length and are numbered modulo 32 |
| Framing.RawLineReassembles | internal/converter/converter.go:74-132 | the frames a log line is split into reassemble to its bytes if and only if it has at most 223 |
| CanAdapter.Adapter.SendFast | internal/adapter/canadapter/canadapter.go:139-197 | rejects exactly the messages over 223 bytes and then changes nothing; else writes their frames and turns the sequence id |
| CanAdapter.Adapter.SendSingle | internal/adapter/canadapter/canadapter.go:200-220 | rejects exactly the messages over eight bytes; else writes one frame with the length and the bytes, padded with 0xFF |
| CanAdapter.Adapter.WritePgn | internal/adapter/canadapter/canadapter.go:108-123 | frames a message by its PGN, and leaves no trace on an error |
| CanAdapter.Adapter.HandleMessage | internal/adapter/canadapter/canadapter.go:74-98 | a received frame changes the builder and reaches the handler exactly as the receiving specification says |
| CanAdapter.SplitRawLine | internal/converter/converter.go:58-132 | a line of up to eight bytes becomes one frame of that length padded with zeros, a longer one exactly the specified frames |
| MessageQueue.Queue.EnqueueIfCurrent | internal/n2kinternal/n2kinternal.go:279-358 | accepts exactly while the limit is not negative, the message in work has not taken longer, and the oldest has not waited longer, and appends |
| MessageQueue.Queue.TryDequeue | internal/n2kinternal/n2kinternal.go:303-322 | hands out the oldest message |
| MessageQueue.Queue.Compact | internal/n2kinternal/n2kinternal.go:364-376 | keeps the contents and leaves head 0, or head below 1024 and twice the head below the slice length |
| MessageQueue.Queue.Depth | internal/n2kinternal/n2kinternal.go:360-362 | a non-empty queue has a slice shorter than twice its depth |
| MessageQueue.Queue.Discard | internal/n2kinternal/n2kinternal.go:324-332 | empties the queue and counts what it dropped |
| MessageQueue.Serve | internal/n2kinternal/n2kinternal.go:279-376 | over any run of calls the compacting queue answers what a plain FIFO answers |
| LifecycleSafety.StepKeepsInv | internal/n2kinternal/n2kinternal.go:433-537 | every step of every API call, goroutine, context and message keeps the service invariant |
| LifecycleSafety.AtMostOneRunIsLive | internal/n2kinternal/n2kinternal.go:433-488 | in every reachable state at most one generation runs its endpoint |
| LifecycleSafety.ClosedOnceBeforeDone | internal/n2kinternal/n2kinternal.go:532-537 | a generation closes its endpoint at most once, and once before it is done |
| LifecycleSafety.ResultIsFixedAtDone | internal/n2kinternal/n2kinternal.go:652-663 | after done no step changes a generation's result; what it is, RunHistory says |
| RunHistory.ResultTellsTheRun | internal/n2kinternal/n2kinternal.go:490-516 | the result of a generation that went live holds an error of Run exactly if its Run returned one and nothing had cancelled it before its runner finished, an error of the close exactly if the first close of its endpoint failed, and no other |
| RunHistory.DoneMeansFinished | internal/n2kinternal/n2kinternal.go:490-516 | a generation that went live is done exactly if the run has its finishing step |
| RunHistory.ResultTellsTheStart | internal/n2kinternal/n2kinternal.go:457-488 | the result of a start that came to nothing: the refusal of the endpoint, else the cancellation found when it was closed, and the error of the close |
| RunHistory.OnlyWantedGoLive | internal/n2kinternal/n2kinternal.go:464-487 | a generation goes live exactly if it was neither asked to stop nor cancelled while its endpoint started |
| EndpointCloses.StopClosesTheInstalled | internal/n2kinternal/n2kinternal.go:621-650 | Stop closes the installed endpoint, once through the last generation that ran on it, and directly only if none ever did |
| EndpointCloses.CancelledGetsClosed | internal/n2kinternal/n2kinternal.go:518-537 | the endpoint of a cancelled generation is closed or its watcher can make its next move, even if Run never returns |
| LifecycleSafety.StopReturnsToRest | internal/n2kinternal/n2kinternal.go:574-650 | when Stop returns, and before an endpoint is replaced, no run is live, no processor runs and nothing is queued |
| LifecycleSafety.StopIsNeverStuck | internal/n2kinternal/n2kinternal.go:621-650 | while Stop waits for a generation, its runner or the processor it waits for has an enabled step |
| LifecycleSafety.EndingIsNeverStuck | internal/n2kinternal/n2kinternal.go:490-516 | once Run has returned, the runner or the processor can always move on, with or without a Stop |
| StopTermination.StopWaitIsBounded | internal/n2kinternal/n2kinternal.go:621-650 | however the service is scheduled, while Stop waits for a generation its runner and the processor together make at most as many moves as were pending when the wait began |
| StopTermination.StopWaitEnds | internal/n2kinternal/n2kinternal.go:621-650 | whenever Stop waits, that many moves of theirs, without a further call, make the generation done; Run itself has to return only if it has not |
| LifecycleSafety.ProcessorIsCurrent | internal/n2kinternal/n2kinternal.go:665-695 | a running processor belongs to the current, unfinished generation |
| LifecycleSafety.MessagesAreConserved | internal/n2kinternal/n2kinternal.go:199-237 | accepted = processed + stale + discarded + queued + in flight; the wait group counts queued plus in flight; accepted messages leave in order |
| MessageHistory.BooksAreTrue | internal/n2kinternal/n2kinternal.go:199-237 | over any run the accepted messages are those that came in on time through a processor, in order, and every message finished in time or too late is counted as such once |
| LifecycleSafety.NaturalEndLosesNothing | internal/n2kinternal/n2kinternal.go:490-516 | a generation that drained before any cancellation discarded no message |
| Restarts.LiveGenerationsHear | internal/n2kinternal/n2kinternal.go:475-482 | if every installed endpoint is started at most once, a live unstopped generation hears it, through its own processor unless cancelled |
| Restarts.OnlyLateMutesDeafen | internal/n2kinternal/n2kinternal.go:518-530 | in any run, a step deafens a listening generation if and only if it is a late mute of its output by a watcher or canceller |
| Restarts.RestartCanBeDeaf | internal/n2kinternal/n2kinternal.go:518-530 | a reachable state with a live, unstopped, uncancelled generation whose output is muted, after a restart of the same endpoint |
| BitStream.FieldsRoundTrip | internal/pgn/writedatastream.go:196-229 | any list of fields written into a blank stretch from any bit position reads back as the values modulo their lengths, and no earlier bit changes |
| BitStream.PutAllStaysWithin | internal/pgn/writedatastream.go:196-229 | fields change no bit outside their stretch |
| BitStream.PutThenGet | internal/pgn/readdatastream.go:272-312 | a number put into a blank stretch reads back modulo its length |
| DataStream.DataStream.PutNumberRaw | internal/pgn/writedatastream.go:196-229 | ors in the bits at the cursor; a wrong offset is refused untouched, an overrun writes the bits that fit and then fails |
| DataStream.DataStream.GetNumberRaw | internal/pgn/readdatastream.go:272-312 | reads the bits at the cursor, 64 of them at most; an overrun moves nothing |
| DataStream.DataStream.WriteBinary | internal/pgn/writedatastream.go:73-114 | bit by bit: the field gets the bits of the value and zeros past it, nothing else changes, and the cursor moves by the bits written; exactly wrong offsets, unaligned cursors and full messages are refused, untouched |
| DataStream.DataStream.ReadBinaryData | internal/pgn/readdatastream.go:69-93 | bit by bit: the bytes hold the next bits of the stream and zeros past them; fails, untouched, exactly when unaligned or short |
| DataStream.WriteAndReadBinary | internal/pgn/writedatastream.go:73-114 | what is written as a binary field and read from there again is the bits that were written |
| DataStream.DataStream.SetPosition | internal/pgn/datastream.go:55-58 | places the cursor at a bit position |
| DataStream.DataStream.GetData | internal/pgn/datastream.go:25-27 | the bytes before the cursor's byte |
| BinaryData.MaskedIsStable | internal/pgn/writedatastream.go:109-113 | masking a masked field again changes nothing |
| FieldSpecs.GeneratedConstants | cmd/pgngen/main.go:492-537 | missing is the top value of the field, and the valid values end one below it, or two from four bits on |
| FieldSpecs.UnreservedConstants | cmd/pgngen/main.go:492-537 | a field of another type, or without a length, reserves nothing |
| FieldCodec.GeneratedIsProper | cmd/pgngen/main.go:540-579 | every generated spec satisfies what the runtime codec relies on |
| WordArithmetic.ExtensionIsTwosComplement | internal/pgn/readdatastream.go:395-401 | sign extension reads a field as two's complement of its own length |
| FieldRoundTrips.DecodeMeans | internal/pgn/readdatastream.go:428-493 | reading is nil above the valid values, an error when the offset leaves 64 bits, and else the wire value plus the offset |
| FieldRoundTrips.ValueRoundTrips | internal/pgn/writedatastream.go:232-298 | every value whose distance to the offset is in the valid range survives, negatives and offsets included |
| FieldRoundTrips.ValueSurvivesExactly | internal/pgn/writedatastream.go:232-298 | for every spec and offset, a value survives if and only if the clamped wire value plus the offset is a machine integer and misses it by whole turns of the field's type |
| FieldRoundTrips.ValueSurvivesIff | internal/pgn/writedatastream.go:232-298 | for offsets that are values of the field's own type, or at most zero for an unsigned one, a value survives if and only if it is in that range |
| FieldRoundTrips.SignedIsClamped | internal/pgn/writedatastream.go:248-279 | a signed value out of range is written as the nearer end of the range |
| FieldRoundTrips.UnsignedIsPinned | internal/pgn/writedatastream.go:280-292 | an unsigned value out of range is written as the maximum, if the field has reserved values and is narrower than the word or the value too large |
| FieldRoundTrips.UnreservedIsCut | internal/pgn/writedatastream.go:280-292 | without reserved values the low bits of the distance to the offset are written |
| FieldRoundTrips.NilRoundTrips | internal/pgn/writedatastream.go:239-243 | nil is written as missing and read as nil, and refused without reserved values |
| FieldPatterns.PatternSurvives | internal/pgn/readdatastream.go:428-493 | a pattern read as a value of the field's type is written back as it was |
| FieldPatterns.PatternSurvivesIff | internal/pgn/readdatastream.go:428-493 | for every spec and offset, a pattern read as a value survives if and only if the value needs no cut to the Go type, or the field is unsigned without reserved values, or the pattern is the end of the range a cut value is clamped to |
| FieldPatterns.SignedPatternSurvivesIff | internal/pgn/readdatastream.go:428-493 | for signed offsets that are values of the field's own type, a pattern survives if and only if its value needs no cut to that type |
| FieldPatterns.NilPattern | internal/pgn/readdatastream.go:316-335 | a pattern read as nil is missing or invalid, and is written as missing |
| FieldPatterns.PowerPatterns | internal/pgn/fieldspec_vars_generated.go:902-914 | of the catalog's signed 32-bit fields with offset -2000000000 a pattern survives if and only if its wire value is at least -147483648 |
| FieldPatterns.PowerPatternIsLost | internal/pgn/fieldspec_vars_generated.go:902-914 | the counterexample: the pattern 0x80000000 of such a field decodes to a number and encodes to another pattern |
| FieldPatterns.AddressFieldIsReal | internal/pgn/fieldspec_vars_generated.go:1773-1778 | a decoded commanded address is nil or at most 253 |
| FieldStream.WriteRaw | internal/pgn/writedatastream.go:232-298 | the method writes exactly the specified bits, or the part that fits, or nothing for a refused nil |
| FieldStream.ReadRaw | internal/pgn/readdatastream.go:428-493 | the method returns exactly what the bits at the cursor mean |
| FieldStream.FieldRoundTrip | internal/pgn/readdatastream.go:428-493 | for generated specs, what WriteRaw puts into a blank stretch is what ReadRaw returns |
| DeviceName.NameIsSum | pkg/node/node.go:1559-1600 | a NAME exists exactly for valid device information and is the sum of its parts |
| DeviceName.NameLayout | pkg/node/node.go:1585-1598 | which field is at which bits of a NAME |
| DeviceName.NamesAreOrdered | pkg/node/node.go:1585-1598 | NAMEs compare lexicographically by their parts from bit 63 down |
| DeviceName.NamesAreDistinct | pkg/node/node.go:1585-1598 | equal NAMEs mean equal device information |
| DeviceName.ClaimCarriesTheName | pkg/node/node.go:1602-1633 | the NAME computed from a node's claim is the node's NAME |
| DeviceName.HeardName | pkg/node/node.go:1602-1633 | the NAME any claim is heard under is the one its fields pack, absent ones being zero |
| DeviceName.CommandedNumberFits | internal/pgn/readdatastream.go:69-93 | a unique number read as 21 bits is the little-endian number on the wire modulo 2^21, whatever the bytes |
| DeviceName.CommandNamesItsDevice | pkg/node/node.go:976-981 | a command matches a node exactly when every field it describes, absent ones being zero, is the node's; the arbitrary-address bit is ignored |
| DeviceName.CommandMovesItsDevice | pkg/node/node.go:966-994 | a received command moves exactly the writing node whose device information it describes |
| StringLau.EncodeStringLau | pkg/pgn/stringlau.go:11-21 | encodes texts of at most 253 bytes and refuses longer ones |
| StringLau.DecodeStringLau | internal/pgn/readdatastream.go:131-170 | decodes a field as specified, both character sets, terminators and errors included |
| StringLau.TextRoundTripsIff | internal/pgn/readdatastream.go:172-177 | decoding inverts encoding if and only if the text does not end in a zero byte |
| StringLau.TextLosesOneZero | internal/pgn/readdatastream.go:172-177 | such a text comes back without exactly one of its trailing zeros |
| StringLau.Utf16TextDecodes | internal/pgn/readdatastream.go:149-161 | any text of at most 126 UTF-16 words, surrogate pairs included, decodes to the UTF-8 bytes of its code points, less one zero at its end |
| StringLau.UnitsDecode | internal/pgn/readdatastream.go:149-161 | any words decode to their characters, surrogate pairs joined and lone surrogates replaced by U+FFFD |
| StringLau.EveryWordIsInAUnit | internal/pgn/readdatastream.go:149-161 | every sequence of words is made of such characters and lone surrogates |
| StringLau.Utf16FieldDecodes | internal/pgn/readdatastream.go:149-161 | a field of any words decodes as the words do, less one zero word at the end |
| StringLau.Utf8IsStandard | internal/pgn/readdatastream.go:160-161 | the bytes of a code point are its shortest UTF-8 form |
| StringLau.ByteTextDecodes | internal/pgn/readdatastream.go:162-163 | in any other character set the bytes are the text, less one zero at the end |
| StringLau.RefusedFields | internal/pgn/readdatastream.go:131-163 | exactly which fields are refused: those cut off, and UTF-16 of an odd length that no terminator explains |
| StringLau.RestIsIgnored | internal/pgn/readdatastream.go:131-163 | what follows a field does not change its text |
| ConfigFields.AllOrNothing | pkg/node/node.go:853-877 | a write request is applied exactly when every field can be written |
| ConfigFields.LastWriteWins | pkg/node/node.go:863-872 | each parameter ends with its last written value decoded, and the others keep theirs |
| ConfigFields.ParametersByName | pkg/node/node.go:863-872 | which parameter number is which field of the configuration |
| ConfigFields.EchoRepeats | pkg/node/node.go:873-877 | the reply to a write repeats its fields in order |
| ConfigFields.ReadsInOrder | pkg/node/node.go:912-933 | a read returns one field for each parameter asked for, in order, with its text, and fails at the first that is unknown or too long |
| ConfigFields.AbsentFieldsAreSkipped | pkg/node/node.go:854-856 | a field without a parameter might as well not be there, in reads, writes and replies |
| ConfigFields.RefusalsAreDirected | pkg/node/node.go:940-964 | a refusal goes to the asker, from a claimed writing node, and only if it alone was addressed |
| ConfigFields.ProcessWriteFields | pkg/node/node.go:826-890 | the provider changes exactly if the node is claimed, writing and itself addressed, no selection comes along and every field is writable, and then to the written configuration; the one reply or refusal in every case goes to the asker |
| ConfigFields.ProcessReadFields | pkg/node/node.go:892-934 | a read is answered only by the claimed, writing node it is addressed to; the reply in every case |
| ConfigFields.LongTextIsAccepted | pkg/node/node.go:826-934 | a value that decodes to more than 253 bytes of text is accepted by a write, and a read of the parameter is then refused |
| ConfigFields.AcceptedButTooLong | pkg/node/node.go:826-934 | the counterexample: such a value of 172 bytes, which one fast packet carries |
| ConfigFields.ReadsAreCanonical | pkg/node/node.go:912-933 | every value read is the canonical encoding of the parameter |
| ConfigFields.WrittenIsReadBack | pkg/node/node.go:826-934 | a written parameter reads back canonically if its text has at most 253 bytes, else the read is refused |

## Left out

- ClaimConvergence.EveryHistoryConverges: only for nodes that are not arbitrary-address-capable, because how often one that is can move depends on everything it has heard, and is not bounded here; safety covers both.
- DeviceName.ClaimCarriesTheName: on the claim's fields, not across the wire, because the field writer clamps values in the reserved range.
- Node.Node.ProcessIsoRequest: source, destination and PGN of the replies; their payloads repeat configured data and are not modelled.
- Node.Node.ProcessPgn: does not dispatch group functions, which only answer and change no claim state; the two that touch the configuration are modelled on their own.
- DataStream.DataStream.WriteBinary: requires that the buffer holds the bytes, because the original indexes the buffer unchecked and panics; capacity and length of the buffer are the same.
- Buffers of 65536 bytes and more, where the cursor's byte counter would wrap.
- Slices are values: that several records or packets may share a backing array is not modelled.
- Heartbeats, device-change callbacks, LastSeen, tickers, the 250 ms and all other wall-clock time, logging and metrics.
- The publisher's and endpoint's errors, and the branch for an adapter without a writer or handler.
- NMEA requests that fall through to ISO requests, command group functions and acknowledgements.
- The float conversion of the NMEA 2000 version in product information; a report is a record of facts.
- ReadScaled, WriteScaled, units and floats, because rounding is their point.
- STRING_LZ, fixed strings and the reader of group-function values.
- Parsing of raw log lines; the splitter takes the parsed bytes.
- Endpoint packages, subscriptions, generated types and dispatch, and all other commands.
- The replay adapter and Wait handles, which only read the state modelled here.

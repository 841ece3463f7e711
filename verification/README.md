# OPIO: framed messages over TCP, verified

OPIO moves protobuf messages between two entries over TCP. This project models the parts of it
that decide whether a message arrives, in which order, and when its sender and receiver are told
about it, and proves properties of that model for every input, every run and every behaviour of
the operating system and the peer.

How the project is laid out:

- **The outgoing write queue of a connection.** `WritableSequence.dfy` is one bounded sequence of
  buffers, with its descriptors and its in-place compaction; `Compaction.dfy` is what compaction
  means and why it is optimal. `WriteQueue.dfy` is the connection as a state machine on values: a
  send writes straight to the socket as long as it can and queues the rest, and the queue drains by
  the mutual recursion of `Initiate` and `AfterWrite`. The operating system is an oracle that picks
  the result and the byte count of every synchronous write; asynchronous writes, timeout events,
  read errors and shutdowns are events in any order. `QueueLemmas.dfy`, `WriteQueueInvariant.dfy`
  and `ConnectionRuns.dfy` carry the invariant through every step, `ConnectionTheorems.dfy` says
  what a user gets from it, `ConnectionReports.dfy` who is told of which failure, `ConnectionEndings.dfy`
  which event ends the connection for which reason and what follows a completion, and `Draining.dfy` how
  the queue empties and what a failed write leaves.
  `Connection.dfy` is the class whose methods update the queue, the flags and the descriptors in
  place, and each of its steps is proved to be a step of the machine; `OperatingSystem.dfy` has the socket and the write watchdog that it uses.
- **The input stream.** `SimpleBuffer.dfy` is the standard buffer, `PkgInput.dfy` the ring of
  buffers behind the zero-copy stream, proved to be one flat queue of bytes.
- **The entry.** `PkgHeader.dfy` is the wire header, `Framing.dfy` the package loop as a function
  of the bytes, `Heartbeat.dfy` the failure detector in time, `EntryModel.dfy` both together with
  the ways an entry ends. `Entry.dfy` is the class that runs on the ring and the fields of the
  entry, each handler proved to do what the machine says. `ReadSizing.dfy` is the choice of the
  next read buffer. `PackageImage.dfy` has the image builders and the round trip.
- **From end to end.** `EntrySend.dfy` is the sending side of an entry, from a message to the buffers
  its connection accepts. `EndToEnd.dfy` joins the sender's connection to the receiver's entry through
  the reliable, in-order byte stream of section 2.2 of RFC 9293.
- **Back pressure.** `BackPressure.dfy` runs the streams of the back pressure extension together
  with a connection and the sends posted to its strand, `BackPressureTheorems.dfy` says what a user
  gets, `BpEntry.dfy` is the class.

Three properties turn out to hold only under a condition; each is proved as an equivalence, with an
input for which it fails:

- Chunk independence of framing holds exactly for the *calm* streams (`ChunkingDoesNotMatter`): no
  message in them has a bad body (unknown id, content that does not parse, consumer that throws), or
  the first one that has ends the stream, or there is no whole package behind what is taken of it.
  The content of a message whose id is unknown is left in the stream although its header is gone, and
  the next read makes the loop take that content for packages (`UnknownIdIsOutOfStep`).
- Read-buffer sizing keeps its bounds and its assertion exactly for configured sizes of which
  32 MiB is a power-of-two multiple (`SizingIsSound`).
- A peer that answers every request within R is never given up exactly if R is below both the first
  timeout and the difference of the two (`FastEnough`).

Three more equivalences mark the edge of a guarantee: a ring copy returns exactly if some slot of the
ring holds bytes (`CopyEndsExactlyWhen`), the doubling loop of read-buffer sizing ends exactly if it has
something to double or nothing to reach (`DoublingEndsExactlyWhen`), and the header says where the
message starts exactly up to 255 dwords (`HeaderSpaceFits`).

## Model

| member | source | states |
|---|---|---|
| Compaction.CompactKeepsBytes | net/include/opio/net/tcp/connection.hpp:383-432 | compaction keeps the concatenated bytes |
| Compaction.CompactIsLegal | net/include/opio/net/tcp/connection.hpp:383-417 | every result is an unbroken run of the original buffers, and joined runs stay within the limit |
| Compaction.CompactIsOptimal | net/include/opio/net/tcp/connection.hpp:385-396 | no order-preserving merge whose merged groups fit the limit has fewer buffers |
| Compaction.CompactLeavesNoFittingNeighbours | net/include/opio/net/tcp/connection.hpp:387-396 | any two adjacent results together exceed the limit |
| Compaction.CompactIsIdempotent | net/include/opio/net/tcp/connection.hpp:370-437 | a second compaction changes nothing |
| WritableSequences.WritableSequence.AsioBufs | net/include/opio/net/tcp/connection.hpp:294-313 | the descriptors show the stored bytes in order, the size is their total |
| WritableSequences.WritableSequence.ConcatSmallBuffers | net/include/opio/net/tcp/connection.hpp:370-437 | overwriting the slots in place, while descriptors into them are still read, ends in the compacted sequence and its count |
| WritableSequences.WritableSequence.FindGroupEnd | net/include/opio/net/tcp/connection.hpp:385-396 | the group that starts at a slot is the greedy one, and its size is the number of its bytes |
| WritableSequences.SkipTransferredPart | net/include/opio/net/tcp/connection.hpp:474-491 | with fewer bytes transferred than shown, what is left to show is non-empty and exactly the bytes behind them |
| QueueLemmas.AppendKeepsShape | net/include/opio/net/tcp/connection.hpp:2191-2274 | an append leaves only the back possibly empty and no sequence longer than its limit |
| QueueLemmas.AppendKeepsContent | net/include/opio/net/tcp/connection.hpp:2191-2274 | whichever branch is taken, the queued bytes are the old ones and then the buffer, and the callbacks stay in order |
| QueueLemmas.AppendBehind | net/include/opio/net/tcp/connection.hpp:2207-2274 | callbacks do not move, and at most the new bytes come behind the sequence they wait on |
| QueueLemmas.GrowsOnlyWhenItMust | net/include/opio/net/tcp/connection.hpp:2209-2257 | a further sequence is opened exactly when the back is full and it is the only one or no legal grouping of it is any shorter |
| QueueLemmas.JoinsOnlyWhenFull | net/include/opio/net/tcp/connection.hpp:2207-2273 | buffers are joined only in a back that is full and not the only sequence, greedily up to 16 KiB; otherwise they stay as they are |
| WriteQueue.SyncWrite | net/include/opio/net/tcp/connection.hpp:2305-2325 | what a blocking gather write may answer: success only with everything written |
| WriteQueueInvariant.TryAllKeeps | net/include/opio/net/tcp/connection.hpp:2277-2352 | trying all buffers of a send directly keeps byte conservation and callbacks; all went out or the rest is queued |
| WriteQueueInvariant.WriteSucceededKeeps | net/include/opio/net/tcp/connection.hpp:2753-2765 | popping a written front and firing its callbacks keeps conservation, order and the count of callbacks |
| WriteQueueInvariant.WriteFailedKeeps | net/include/opio/net/tcp/connection.hpp:2735-2743 | a failed write leaves the front queued, its callbacks told of it in order, and sends disabled unless it was cancelled |
| ConnectionRuns.InitiateKeeps | net/include/opio/net/tcp/connection.hpp:2441-2678 | draining keeps the whole invariant and adds only to the logs; with a write running it does nothing |
| ConnectionRuns.AfterWriteKeeps | net/include/opio/net/tcp/connection.hpp:2732-2767 | so does the end of a write, through the mutual recursion down to the last non-empty sequence |
| ConnectionRuns.SendKeeps | net/include/opio/net/tcp/connection.hpp:2002-2062 | so does a send, which logs exactly one record and leaves a front being written alone |
| ConnectionRuns.CompleteKeeps | net/include/opio/net/tcp/connection.hpp:2562-2576 | so does the completion of an asynchronous write, with any result |
| ConnectionRuns.StepKeepsInv | net/include/opio/net/tcp/connection.hpp:2191-2832 | every strand step keeps the invariant, and the logs only grow |
| ConnectionRuns.Run | net/include/opio/net/tcp/connection.hpp:2191-2832 | the invariant holds in every reachable state |
| ConnectionTheorems.BytesAreConserved | net/include/opio/net/tcp/connection.hpp:2277-2678 | accepted bytes are the written bytes followed by the pending ones, in every reachable state; with an empty queue all are written |
| ConnectionTheorems.NothingIsStranded | net/include/opio/net/tcp/connection.hpp:2441-2506 | after every step the queue is one empty sequence, or a write is under way, or a write has failed and nothing more will be written |
| ConnectionTheorems.FrozenItemIsLeftAlone | net/include/opio/net/tcp/connection.hpp:2471-2506 | while a write runs, no send changes the sequence it writes from, or what it has written |
| ConnectionTheorems.WillingSocketTakesItAll | net/include/opio/net/tcp/connection.hpp:2282-2325 | with nothing queued and a socket that takes everything, buffers below the limit are written and called back within the send |
| ConnectionTheorems.DirectWriteLimit | net/include/opio/net/tcp/connection.hpp:2280-2292 | the socket is asked for a direct write exactly if all before it went that way, no write runs and the buffer is below 64 KiB |
| ConnectionTheorems.IdleMeansAnswered | net/include/opio/net/tcp/connection.hpp:2011-2050 | with nothing queued every callback has run: success for accepted sends, rejection for the others |
| ConnectionTheorems.SuccessMeansWritten | net/include/opio/net/tcp/connection.hpp:2753-2757 | a success is reported only when every byte of that send has reached the socket |
| ConnectionTheorems.SuccessesComeInOrder | net/include/opio/net/tcp/connection.hpp:2021-2050 | successes of sends with at least one buffer come in the order of the sends |
| ConnectionTheorems.NeverBothSuccessAndFailure | net/include/opio/net/tcp/connection.hpp:2736-2757 | no callback gets both a success and a failure, the destructor included |
| ConnectionTheorems.EveryCallbackIsRun | net/include/opio/net/tcp/connection.hpp:3052-3111 | up to and including destruction every callback runs, exactly once if no write has failed, and no other runs |
| ConnectionReports.FailuresAreTold | net/include/opio/net/tcp/connection.hpp:2736-2742 | over every run the callbacks of the item whose write failed are told so, in order and once, and no others; refused sends are told so; nothing is called not sent before destruction |
| ConnectionReports.DestroyTells | net/include/opio/net/tcp/connection.hpp:3080-3105 | the destructor tells the callbacks of the item being written that its write failed, and all other queued ones that they were not sent |
| ConnectionEndings.EndedForItsReason | net/include/opio/net/tcp/connection.hpp:2687-2726 | what each event does to a connection not shut down yet: which end it, for which reason, and that a send or a completion ends it only for a bad answer of its last synchronous write |
| ConnectionEndings.EndingCancelsTheWatch | net/include/opio/net/tcp/connection.hpp:2417-2418 | the step that ends the connection leaves no timeout event that would count |
| ConnectionEndings.AfterCompletion | net/include/opio/net/tcp/connection.hpp:2578-2677 | the item behind a completed one: written asynchronously above 64 KiB or from where the socket stopped taking it, failed for any other error, else written whole |
| ConnectionRuns.OnlySendsAreLogged | net/include/opio/net/tcp/connection.hpp:2006-2041 | each send is logged once, as accepted exactly if sends are enabled, and nothing else is |
| Draining.CompletionShrinks | net/include/opio/net/tcp/connection.hpp:2732-2767 | each successful completion leaves fewer sequences with buffers, or the queue empty, unless a further write fails |
| Draining.CompletionsEmptyTheQueue | net/include/opio/net/tcp/connection.hpp:2441-2767 | as many successful completions as there are sequences with buffers put all that was accepted on the wire, unless a further write fails |
| Draining.WillingSocketDrains | net/include/opio/net/tcp/connection.hpp:2441-2767 | with a socket that takes everything none fails, so those completions always empty the queue |
| Draining.OneCompletionDoes | net/include/opio/net/tcp/connection.hpp:2578-2629 | with a socket that takes everything, one completion empties the queue exactly if nothing behind it is above 64 KiB |
| Draining.NothingIsWrittenAfterFailure | net/include/opio/net/tcp/connection.hpp:2738-2743 | after a failed write nothing more is written, whatever happens |
| Draining.CancelledWriteStrands | net/include/opio/net/tcp/connection.hpp:2695-2698 | a run in which sends stay enabled after a failed write: the write is cancelled with no shutdown, and later sends are accepted and never written |
| ConnectionTheorems.DestroyReports | net/include/opio/net/tcp/connection.hpp:3064-3106 | the destructor reports a failure to each callback still queued, in order |
| ConnectionTheorems.OnlyTheRunningWriteTimesOut | net/include/opio/net/tcp/connection.hpp:2774-2815 | a timeout event shuts down exactly while the write that issued its key is running and no shutdown has come before; otherwise it changes nothing |
| ConnectionTheorems.ShutdownOnce | net/include/opio/net/tcp/connection.hpp:2362-2430 | the shutdown handler runs at most once, and no send is accepted after it |
| OperatingSystem.OperationWatchdog.StartWatchOperation | net/include/opio/net/operation_watchdog.hpp:96-111 | the key goes up and the event gets the new one, so no two watches share a key |
| OperatingSystem.OperationWatchdog.CancelWatchOperation | net/include/opio/net/operation_watchdog.hpp:116-120 | the key goes up, past that of every event issued so far |
| Connections.Connection.AppendOutgoingBuffer | net/include/opio/net/tcp/connection.hpp:2191-2274 | in place, the queue becomes what the machine says, and a write in progress still shows its bytes |
| Connections.Connection.TryAggressiveWrite | net/include/opio/net/tcp/connection.hpp:2277-2352 | direct write, tail copy or plain queueing of one buffer, as the machine says |
| Connections.Connection.InitiateWriteIfNecessary | net/include/opio/net/tcp/connection.hpp:2441-2678 | the queue drains as the machine says; it terminates on the number of non-empty sequences |
| Connections.Connection.StartAsyncWrite | net/include/opio/net/tcp/connection.hpp:2508-2576 | the write started shows the whole unwritten rest of the front |
| Connections.Connection.AfterWrite | net/include/opio/net/tcp/connection.hpp:2732-2767 | the end of a write as the machine says |
| Connections.Connection.ShutdownImpl | net/include/opio/net/tcp/connection.hpp:2362-2430 | the first call disables sends, cancels the watch and calls the handler; later calls change nothing |
| Connections.Connection.HandleError | net/include/opio/net/tcp/connection.hpp:2687-2726 | an abort is ignored, an end of file and other errors shut down with their reason |
| Connections.Connection.ScheduleSend | net/include/opio/net/tcp/connection.hpp:2002-2062 | a send is a step of the machine, and a running write keeps its descriptors and bytes |
| Connections.Connection.AsyncDone | net/include/opio/net/tcp/connection.hpp:2562-2572 | a completion is a step of the machine |
| Connections.Connection.HandleWriteOperationTimeout | net/include/opio/net/tcp/connection.hpp:2774-2815 | a timeout event is a step of the machine |
| Connections.Connection.ReadError | net/include/opio/net/tcp/connection.hpp:2887-2893 | a failed read is a step of the machine |
| Connections.Connection.Shutdown | net/include/opio/net/tcp/connection.hpp:1605-1614 | a requested shutdown is a step of the machine |
| Connections.Connection.HandleRemainingWriteQueue | net/include/opio/net/tcp/connection.hpp:3052-3111 | the destructor runs the queued callbacks the machine says, in that order |
| SimpleBuffers.SimpleBuffer.ShrinkSize | net/include/opio/net/buffer.hpp:244-248 | keeps the front of the content |
| SimpleBuffers.SimpleBuffer.Resize | net/include/opio/net/buffer.hpp:258-271 | keeps the content up to the smaller size, and takes new memory only if the old is too small |
| PkgInputs.PkgInput.constructor | proto_entry/include/opio/proto_entry/pkg_input.hpp:360-405 | a new stream is empty |
| PkgInputs.PkgInput.Size | proto_entry/include/opio/proto_entry/pkg_input.hpp:163 | counts the bytes not yet taken, lent ones included |
| PkgInputs.PkgInput.Next | proto_entry/include/opio/proto_entry/pkg_input.hpp:81-94 | lends a front part of the unread bytes, taking the previous one for good; false exactly if there are none |
| PkgInputs.PkgInput.BackUp | proto_entry/include/opio/proto_entry/pkg_input.hpp:112-137 | puts exactly the last bytes lent back in front of the unread ones |
| PkgInputs.PkgInput.Skip | proto_entry/include/opio/proto_entry/pkg_input.hpp:143-155 | drops that many unread bytes, or none and returns false if there are fewer |
| PkgInputs.PkgInput.SkipBytes | proto_entry/include/opio/proto_entry/pkg_input.hpp:258-283 | drops exactly that many bytes, over any number of slots, empty ones included |
| PkgInputs.PkgInput.Append | proto_entry/include/opio/proto_entry/pkg_input.hpp:170-202 | puts the buffer's bytes behind the unread ones, also when the ring is full and the last slot takes them |
| PkgInputs.PkgInput.CopyNBytesTo | proto_entry/include/opio/proto_entry/pkg_input.hpp:316-339 | terminates with exactly those bytes copied and nothing else written, although it goes on round the ring to a non-empty slot |
| PkgInputs.PkgInput.ViewPkgHeader | proto_entry/include/opio/proto_entry/pkg_input.hpp:218-229 | reads the header at the front without taking it |
| PkgInputs.PkgInput.ReadBuffer | proto_entry/include/opio/proto_entry/pkg_input.hpp:242-249 | takes exactly the first bytes and copies them |
| PkgInputs.EmptyRingNeverReturns | proto_entry/include/opio/proto_entry/pkg_input.hpp:323-337 | with only empty slots a copy never ends, even of no bytes |
| PkgInputs.CopyCallsNeeded | proto_entry/include/opio/proto_entry/pkg_input.hpp:323-337 | with bytes some slots ahead it ends: fewer bytes to copy, then a shorter way to go |
| PkgInputs.CopyEndsExactlyWhen | proto_entry/include/opio/proto_entry/pkg_input.hpp:316-339 | a copy returns if and only if some slot of the ring holds bytes |
| PkgHeaders.WireLayout | proto_entry/include/opio/proto_entry/pkg_header.hpp:46-70 | which byte of the image holds which part of which field, low byte first; a buffer reads as the one header it lays out |
| PkgHeaders.DecodeOfEncode | proto_entry/include/opio/proto_entry/pkg_header.hpp:36-96 | a header survives the wire, whatever follows it |
| PkgHeaders.EncodeOfDecode | proto_entry/include/opio/proto_entry/pkg_header.hpp:36-96 | the image loses nothing: every 12 bytes are the image of the header they decode to |
| Framing.ParseOne | proto_entry/include/opio/proto_entry/entry_base.hpp:1221-1254 | a package that is taken removes at least 12 bytes, so the package loop ends |
| Framing.HeadDecides | proto_entry/include/opio/proto_entry/entry_base.hpp:1358-1570 | a header is refused exactly for its fault and for that reason, and more input is awaited exactly while the head is incomplete |
| Framing.LoopEndsForItsHead | proto_entry/include/opio/proto_entry/entry_base.hpp:1219-1261 | why a run over a stream ends: its first bad body, else the fault of the header it is left at, else that it is left incomplete |
| Framing.MoreInputSameOutcome | proto_entry/include/opio/proto_entry/entry_base.hpp:1358-1454 | once the head of the stream is decided, more input does not change the decision |
| Framing.LoopSplit | proto_entry/include/opio/proto_entry/entry_base.hpp:1256-1260 | a run over two parts is a run over the first and one over its residue and the second, unless a body was refused |
| Framing.RestIsStuck | proto_entry/include/opio/proto_entry/entry_base.hpp:1256-1260 | the residue is a tail of the input at which the loop cannot go on |
| Framing.ChunkingDoesNotMatter | proto_entry/include/opio/proto_entry/entry_base.hpp:1154-1261 | every split into non-empty chunks delivers the same events and leaves the same residue as the whole, if and only if the stream is calm |
| Framing.HeadOf | proto_entry/include/opio/proto_entry/entry_base.hpp:1358-1454 | a package is taken or refused in its body exactly if it is whole with a good header, and which of the two is decided by the guards of the dispatcher |
| Framing.LoopRefuses | proto_entry/include/opio/proto_entry/entry_base.hpp:1446-1451 | the loop is stopped by the first bad body of the stream, right behind what is taken of it |
| Framing.RefusalInPart | proto_entry/include/opio/proto_entry/entry_base.hpp:1256-1260 | a part of a stream has the refusal of the whole as soon as that message is all there, and none before |
| Framing.LastByteTells | proto_entry/include/opio/proto_entry/entry_base.hpp:1154-1261 | for a stream that is not calm, reading its last byte separately already gives another result |
| Framing.UnknownIdIsOutOfStep | proto_entry/templates/entry.tmpl.hpp:475-487 | a stream on which splitting matters: behind an unknown id the content is a heartbeat, which one more byte in a read of its own makes arrive |
| Framing.RefusedForever | proto_entry/include/opio/proto_entry/entry_base.hpp:1424-1429 | after a refused header nothing is ever delivered, and all later input piles up behind it |
| PackageImages.MakePackageImage | proto_entry/include/opio/proto_entry/utils.hpp:53-80 | the buffer holds the image of the header and then the message |
| PackageImages.MakeSeparatePackageImage | proto_entry/include/opio/proto_entry/utils.hpp:102-136 | the first buffer starts with the image of the header and has the extra room, the second is the message |
| PackageImages.MessageLayout | proto_entry/include/opio/proto_entry/utils.hpp:58-75 | a message on the wire, byte for byte: type 0 and the sizes, the extra header space, the message, the attachment |
| PackageImages.HeartbeatLayout | proto_entry/include/opio/proto_entry/entry_base.hpp:1505-1508 | the twelve bytes of a heartbeat request and of a reply |
| PackageImages.HeaderSpaceFits | proto_entry/include/opio/proto_entry/utils.hpp:109-123 | the header tells where the message starts if and only if it is at most 255 dwords long |
| PackageImages.HeadIsConsumed | proto_entry/templates/entry.tmpl.hpp:404-473 | a laid-out package at the front is taken whole and gives back its message and attachment |
| PackageImages.PartDelivers | proto_entry/include/opio/proto_entry/entry_base.hpp:1219-1261 | any part of a stream of packages delivers those it holds in full and keeps the rest; nothing is refused |
| PackageImages.PackagesRoundTrip | proto_entry/include/opio/proto_entry/utils.hpp:52-136 | laying out any list of packages and running the loop returns that list, with nothing left |
| Heartbeats.OneRequestPerSilence | proto_entry/include/opio/proto_entry/entry_base.hpp:1651-1694 | at most one request per silent period, for any timeouts and any delay of the timers |
| Heartbeats.GivesUpForAReason | proto_entry/include/opio/proto_entry/entry_base.hpp:1661-1680 | giving up comes only after a request in this silent period and at least the second timeout of silence, and leaves the peer the first timeout to answer a later request; for any timeouts and any delay |
| Heartbeats.GivesUpExactlyWhen | proto_entry/include/opio/proto_entry/entry_base.hpp:1625-1680 | a check gives up exactly with a request out and both timeouts of silence passed, however early or late the timer fires |
| Heartbeats.SilentPeerIsAsked | proto_entry/include/opio/proto_entry/entry_base.hpp:1625-1694 | a silent peer is asked by a bounded time |
| Heartbeats.SilenceIsDetected | proto_entry/include/opio/proto_entry/entry_base.hpp:1603-1727 | with timers up to d late, no entry stays active beyond the last input plus max(await, 2 * initiate) + 2d |
| Heartbeats.PunctualGiveUp | proto_entry/include/opio/proto_entry/entry_base.hpp:1698-1702 | with punctual timers it gives up at exactly the last input plus await |
| Heartbeats.NoFalseAlarm | proto_entry/include/opio/proto_entry/entry_base.hpp:1625-1726 | a peer heard soon enough after each request is never given up, over all runs |
| Heartbeats.FalseAlarm | proto_entry/include/opio/proto_entry/entry_base.hpp:1625-1726 | for any slower peer there is a run in which it answers every request in its time, the last one included, and is given up |
| Heartbeats.FastEnough | proto_entry/include/opio/proto_entry/entry_base.hpp:1625-1726 | the exact bound: below both initiate and await - initiate |
| EntryModels.HandlerRunsForFirstCause | proto_entry/include/opio/proto_entry/entry_base.hpp:1266-1351 | over every interleaving the shutdown handler runs exactly once if there is a cause to end, with the first one to reach the entry; and the connection is shut down exactly once, unless that cause was its own end |
| EntryModels.DeliversWhatIsFramed | proto_entry/include/opio/proto_entry/entry_base.hpp:1154-1176 | whatever happens in between, an entry delivers what framing its chunks delivers |
| EntryModels.GoodInputIsDelivered | proto_entry/include/opio/proto_entry/entry_base.hpp:1154-1261 | input in which nothing is refused is delivered however it is cut, and never ends an entry |
| EntryModels.BadInputEndsEntry | proto_entry/include/opio/proto_entry/entry_base.hpp:1423-1429 | input with a bad body, or that leaves the stream at a faulty header, ends an active entry for that reason; other input does not |
| EntryModels.ActiveEntryWaitsForInput | proto_entry/include/opio/proto_entry/entry_base.hpp:1219-1261 | over every run, what an active entry keeps is the beginning of a package that it may still accept |
| EntryModels.HeartbeatsAreSent | proto_entry/include/opio/proto_entry/entry_base.hpp:1505-1508 | over every run, as many requests go out as the timed machine asks for, and as many replies as requests were heard while active |
| EntryModels.HeartbeatIsTimed | proto_entry/include/opio/proto_entry/entry_base.hpp:1603-1761 | the heartbeat of an entry is the timed machine: active as long, at the same point, and giving up exactly when the entry ends for the heartbeat |
| EntryModels.NeverEndedBySilence | proto_entry/include/opio/proto_entry/entry_base.hpp:1625-1726 | no false alarm of an entry: heard soon enough after each request, it never ends for the heartbeat and its handler is never told so |
| EntryModels.SilentPeerEndsEntry | proto_entry/include/opio/proto_entry/entry_base.hpp:1603-1727 | no entry stays active beyond the last input plus max(await, 2 * initiate) + 2d |
| EntryModels.EndedBySilenceForAReason | proto_entry/include/opio/proto_entry/entry_base.hpp:1661-1680 | an entry ends for the heartbeat only with one request out and at least the second timeout of silence, for any timeouts |
| Entries.Entry.Terminate | proto_entry/include/opio/proto_entry/entry_base.hpp:1293-1351 | calls the handler that is there, and no other call follows |
| Entries.Entry.ShutdownAndTerminate | proto_entry/include/opio/proto_entry/entry_base.hpp:1266-1285 | ends an active entry, and leaves any other as it is |
| Entries.Entry.HandleShutdown | proto_entry/include/opio/proto_entry/entry_base.hpp:1575-1600 | the connection's own end is a step of the machine |
| Entries.Entry.OnCheckHeartbeat | proto_entry/include/opio/proto_entry/entry_base.hpp:1603-1727 | a heartbeat check is a step of the machine |
| Entries.Entry.ReadLimited | proto_entry/templates/entry.tmpl.hpp:405-449 | reading through lent chunks and backing up the excess takes exactly the content, and leaves nothing lent |
| Entries.Entry.ReadAttached | proto_entry/templates/entry.tmpl.hpp:451-464 | takes exactly the attached binary |
| Entries.Entry.HandleIncomingMessage | proto_entry/templates/entry.tmpl.hpp:382-490 | the dispatcher on the ring does what the parser on the flat bytes says, in all its error cases |
| Entries.Entry.HandleMessagePkg | proto_entry/include/opio/proto_entry/entry_base.hpp:1419-1454 | a message package on the ring has the outcome the flat stream says |
| Entries.Entry.HandleHeartbeatPkg | proto_entry/include/opio/proto_entry/entry_base.hpp:1461-1550 | so do both heartbeat packages; a request is answered while active |
| Entries.Entry.RunInputStreamLoop | proto_entry/include/opio/proto_entry/entry_base.hpp:1219-1261 | the loop ends, and delivers and leaves what framing the flat bytes says |
| Entries.Entry.HandleInput | proto_entry/include/opio/proto_entry/entry_base.hpp:1154-1176 | a chunk of input is a step of the machine, exceptions of the consumer included |
| ReadSizing.RawBytesHandler.OnInput | proto_entry/include/opio/proto_entry/entry_base.hpp:803-853 | the doubling loop finds the next size, and its assertion held exactly if that size is at most 32 MiB, whenever the loop ends |
| ReadSizing.DoublingEndsExactlyWhen | proto_entry/include/opio/proto_entry/entry_base.hpp:838-846 | the loop ends if and only if it has something to double or nothing to reach |
| ReadSizing.DoubledIsLeast | proto_entry/include/opio/proto_entry/entry_base.hpp:838-846 | the size found is the smallest doubling that will do, and below twice what was read |
| ReadSizing.SoundSizes | proto_entry/include/opio/proto_entry/entry_base.hpp:803-853 | if 32 MiB is a doubling of the configured size, every size over every sequence of reads is as meant |
| ReadSizing.UnsoundSizes | proto_entry/include/opio/proto_entry/entry_base.hpp:820-846 | for any other configured size there are reads after which it is not |
| ReadSizing.SizingIsSound | proto_entry/include/opio/proto_entry/entry_base.hpp:803-861 | sizing does what it is meant to, over every sequence of reads, if and only if 32 MiB is a doubling of the configured size |
| EndToEnd.BuffersOf | proto_entry/templates/entry.tmpl.hpp:233-253 | the buffers given to the connection for a package are together its image |
| EntrySends.MakeImage | proto_entry/templates/entry.tmpl.hpp:235-250 | the builder's buffer, with the attachment behind it, is what the end-to-end result takes for the package |
| EntrySends.EntrySender.Send | proto_entry/templates/entry.tmpl.hpp:233-241 | a message without an attachment goes to the connection, and joins the packages carried if it is accepted |
| EntrySends.EntrySender.SendAttached | proto_entry/templates/entry.tmpl.hpp:243-253 | so does one with an attachment, in a buffer of its own |
| EntrySends.EntrySender.SendHeartbeat | proto_entry/include/opio/proto_entry/entry_base.hpp:1505-1508 | so does a bare heartbeat header |
| EntrySends.SeparateBuffersAreImage | proto_entry/include/opio/proto_entry/utils.hpp:113-135 | header, message and attachment in separate buffers are the image of the same package |
| EntrySends.RunsCarryTheirPackages | proto_entry/templates/entry.tmpl.hpp:233-253 | every run of a connection on which only packages are sent carries the accepted ones, which is what end-to-end delivery asks for |
| EndToEnd.DeliveredInOrder | net/include/opio/net/tcp/connection.hpp:2191-2767 | for every schedule of writes and every chunking, what is delivered is a prefix of the packages accepted by send, and all of them once all is written and read |
| EndToEnd.EntryDeliversInOrder | proto_entry/include/opio/proto_entry/entry_base.hpp:1154-1454 | the same for a whole entry with heartbeats and every way to end, and its input never ends it |
| BackPressure.StepKeeps | proto_entry/include/opio/proto_entry/ext/back_pressure.hpp:118-234 | every submission, report and step of the connection keeps the books of every stream |
| BackPressure.OnlyTheLastIsOpen | proto_entry/include/opio/proto_entry/ext/back_pressure.hpp:188-206 | a report not handled yet can only be that of the last buffer handed on, so the counter never leaves 0 and 1 |
| BackPressure.SuccessOnlyOnce | proto_entry/include/opio/proto_entry/ext/back_pressure.hpp:190-203 | no send is called back with success twice |
| BackPressureTheorems.OnlyTheNewestIsSent | proto_entry/include/opio/proto_entry/ext/back_pressure.hpp:118-234 | one in flight at most and one waiting behind it; sent is a subsequence of submitted, each time the newest; submitted is sent, dropped or waiting; nothing newer than the last sent is lost |
| BackPressureTheorems.OnlyOneIsOnItsWay | proto_entry/include/opio/proto_entry/ext/back_pressure.hpp:186-234 | all but the buffer in flight are on the wire whole, each at the place its send has in the byte stream |
| BackPressureTheorems.WaitsForAReason | proto_entry/include/opio/proto_entry/ext/back_pressure.hpp:186-206 | a stream waits only while its send is posted and has not arrived, its callback is queued, can be reported or has failed, or the entry was no longer active |
| BpEntries.BpEntry.BpSendRawBuf | proto_entry/include/opio/proto_entry/ext/back_pressure.hpp:118-183 | a submission is a step of the joint machine, for the counters, the memorized buffer and the posted sends |
| BpEntries.BpEntry.SendBuffer | proto_entry/include/opio/proto_entry/ext/back_pressure.hpp:186-206 | posts the buffer to the strand of the connection, if the entry is active |
| BpEntries.BpEntry.RunPostedSend | net/include/opio/net/tcp/connection.hpp:2006-2059 | the oldest posted send reaches the connection as a step of the joint machine |
| BpEntries.BpEntry.SendFinished | proto_entry/include/opio/proto_entry/ext/back_pressure.hpp:208-234 | a report is a step of the joint machine |

## Left out

- Sockets, executors, timers, acceptor and connector, UDP, JSON configuration, logging, statistics, the code generator and protobuf itself. What they decide is an oracle, an event or a function of the protocol (`parse`, `taken`, `throws`).
- Sends from another thread under the mutex. All steps are serialized by the strand. A send reaches the connection in the step that makes it, except for back pressure streams, where it is posted first.
- Callbacks, consumers and shutdown handlers that call back into the connection or the entry while it is in the middle of a step.
- `is_open()` and the Windows `close`: the socket counts as open until the first shutdown.
- Counters are unbounded: the 64-bit watchdog key, the sizes in `std::size_t`, the `int` counters of a stream.
- Callbacks exactly once after a failed write. The front stays queued, so the destructor reports it again; proved are at least once, and never a success.
- A bound on the callbacks of one sequence. Compaction reduces buffers but not callbacks, so the assertion on their number is not modelled.
- A single read loop. Stopping and starting again during a pending read starts a second one.
- `send_vec` of the generated entries, which makes two separate sends; buffers of mixed type; buffers whose content changes when read. A buffer is a fixed sequence of bytes.
- Joining a connection object to an entry object: the two classes are each proved against their machines, and the machines are joined in `EndToEnd`.
- WriteQueue.SyncWrite: never answers with a cancellation, because a blocking write is not cancelled; and no error means that all bytes are written.
- ConnectionTheorems.NothingIsStranded: after an asynchronous write ended with a cancellation that no shutdown of ours caused, sends are still accepted and only queued, as in the source (see CancelledWriteStrands).
- PkgInputs.PkgInput.ReadBuffer: reading no bytes asks for some slot of the ring to hold bytes, because otherwise the copy does not return (see CopyEndsExactlyWhen).
- ReadSizing.RawBytesHandler.OnInput: asks for the doubling loop to end; with a configured size of 0 and bytes read into a larger buffer it does not (see DoublingEndsExactlyWhen).
- PkgInputs.PkgInput.Skip: past the end it counts the bytes but drops none, as the code does and against its comment.
- PkgInputs.PkgInput.Append: the ring has its default capacity of 8, and running out of memory is not modelled.
- Framing.ParseOne: a heartbeat whose header is not 3 dwords long and a message whose header is shorter end the run as a failed assertion; for the heartbeat the source has no assertion and skips the advertised size unchecked.
- Entries.Entry.HandleIncomingMessage: the parser looks at the content first and then reads it, and a failing parser leaves nothing lent out.
- EntrySends.EntrySender.Send: the same limit on messages as MakePackageImage, and SendAttached too.
- PackageImages.MakePackageImage: messages of 4 GiB and more are left out, which protobuf does not serialize.
- PackageImages.MakeSeparatePackageImage: the same limit; the extra header space holds any bytes, as the source does not initialize it.
- PkgHeaders.DecodeOfEncode: for a little-endian host; the source copies the header as it is in memory.
- Heartbeats.SilenceIsDetected: with both timeouts positive and the second the longer one, and timers that are never early.
- EndToEnd.DeliveredInOrder: for packages within the receiver's size limit, with ids it knows, attachments below 4 GiB and consumers that do not throw.
- BackPressure.StepKeeps: posted sends arrive in order; a report may come at any time after its callback, and the order of reports is not fixed any further.

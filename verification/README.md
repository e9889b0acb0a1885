# Verified model of the body-domain ECU firmware

A Dafny model of the parts of a two-node automotive demonstrator (a gateway and an
actuator node on CAN FD) whose correctness is a matter of protocol, and proofs about all
their inputs and runs. Verify it with `dafny verify dfyconfig.toml`.

Code that changes things step by step is modelled by classes and methods with loops, each
proved equal to a specification function on values; the theorems are about those functions
and about runs of them. The table below lists the theorems and the methods that are the
entry points or whose contracts say more; the remaining handlers, searches and loops of each
class (flash erase and write, CRC loops, slot search, frame encoders, the ISO-TP single and
first frame, attempts and failures of the resource manager, task creation and selection) are
each proved equal to their specification function in the same way.

* **SecOC freshness over a power-loss-safe store.** `WorkFlash` models the two flash
  sectors as cells that are erased, torn or hold a word. `SecocStore` is the two-slot record
  (erase the older slot, body, mark, read back), `StoreRuns` its crash theorems.
  `SecocFreshness`, `SecocFrame`, `SecocRx` and `SecocApp` are the epoch and counter state
  machines, the secured frame, the receive verdict and the node. `SecocSystem` puts the two
  nodes and a hostile bus together: any step may boot a node, cut its power, send, or deliver
  an arbitrary frame, and every commit may fail or lose power between any two flash
  operations. `SecocTheorems` proves delivery in order and at most once, monotone freshness
  and the epoch budget, `SecocResync` that one of two running nodes can always be heard and
  how they resynchronise, `SecocDeaf` exactly when one of them stays deaf, `SecocUnbooted`
  exactly when an unbooted sender crashes a node.
* **Log channel.** `LogRecord`, `LogRing` and `LogChannel` are the target's encoder, byte ring
  and channel; `LogDecoder` is the host's incremental decoder; `LogTheorems` joins them end
  to end, `LogGaps` says what becomes of streams with losses or damage.
* **ISO-TP.** `IsoTp` is the target's transport, `UdsClient` the programming tool's end,
  `IsoTpTheorems` what they deliver to each other and exactly when they do not, `IsoTpLoop`
  the same with each end fed by the other, `IsoTpPolls` the receive timeout.
* **Bring-up.** `SysMgr` is the resource manager, `SysMgrTheorems` its order, stability and
  termination.
* **Scheduler.** `Sched` is the scheduler core, `SchedTheorems` its invariants, delays and
  round-robin fairness. `Bits` has the bitwise operations on words.
* **Protection regions.** `ProtRegion` is the region geometry.
* **Cross-core crypto service.** `CryptoMsg` and `CryptoRpc` are the envelope and both ends,
  `CryptoSystem` the two cores around the mailbox, byte by byte, with any number of client
  tasks. `SecocOracle` joins it to the frames: SecOC's MAC is what such a run returns.

Integers are mathematical; every wrap and truncation of the C code is written out. Bus
contents, sink and callback answers, clocks, hardware faults and the MAC function are
parameters or arbitrary choices. Three hypotheses recur in the SecOC theorems: the MAC is
ideal (the bus cannot make a tag for an input neither node authenticated); boots of both
nodes plus exhausted epochs stay below 0xFFFF, which keeps the unchecked 16-bit epoch from
wrapping; and the run is short enough for the 32-bit save number.

Where code and documentation differ, or the code does not keep what it promises, the model
follows the code, and a theorem says exactly when:

* The store promises never to lose what it held, and keeps that promise, but before the first
  record is held an interrupted commit can leave it BROKEN: `FactoryCommitBreaks`,
  `BrokenExactly`, `FirstCommitCanBreak`.
* The boot sync is sent once (`node_a_gateway/app/src/can_task.c:212-217`). If it is lost, the node that booted stays
  deaf. `docs/architecture/decisions/ADR-0021-secoc-protocol.md:407-411` says until the next reboot of either node; in fact
  a reboot of the deaf node opens nothing unless its new sync arrives, and a counter rollover
  of the sender does open it: `DeafExactly`, `StaysDeaf`, `DeafIsReachable`.
* Start-up ignores a failed sender boot (`node_a_gateway/app/src/secoc_app.c:79`); an accepted sync then calls through a
  null store pointer: `CrashExactly`, `CrashIsReachable`.
* `shared/secoc/include/secoc_rx.h:98-99` promises an untouched output buffer on a drop; the PDU is written before
  the freshness verdict, so the buffer is untouched exactly on a MAC drop, and holds
  the PDU of every replay: `SecocReceiver.Process`, `ReplayIsWritten`.
* `shared/diag/include/isotp_types.h:23-25` speaks of a flow control after each block; the code sends one per message,
  which limits messages between two such modules, and to the client, to 563 bytes:
  `LoopDelivers`, `ClientLoop`.
* `isotp.c` keeps its completion flag when a first frame arrives over an untaken message
  (`WholeUnless`), accepts declared totals below 59 and then completes 122 bytes
  (`DeclaredLength`), and copies up to 193 bytes from behind the frame buffer for a single
  frame that states more than 62 (`SingleFrameReach`).
* An entry of the resource manager with `max_retries` 255 is never given up (`ExhaustedIff`).
* A region that straddles 2^31 gets an invalid size code (`WholeSpaceIff`, `CoverIsRight`).
* The MAC client admits 122-byte messages of which the mailbox carries 119 (`RequestFits`), and
  after any timeout, though never before one, a client can be writing the mailbox while the
  server works on it (`PayloadHasOneUser`, `OverlapAfterTimeout`, `OverlapIsReachable`).

## Model

| member | source | states |
|---|---|---|
| SecocStore.EncodedWords | shared/secoc_store/src/secoc_store.c:83-90 | The 20-byte little-endian buffer the encoder fills is, word for word, the record the flash model programs |
| SecocStore.DecodedWords | shared/secoc_store/src/secoc_store.c:101-139 | Reading a buffer by byte offsets gives the same verdict (torn, corrupt or valid with these epochs) as reading its five words |
| SecocStore.DecodeExactly | shared/secoc_store/src/secoc_store.c:101-139 | Five words are taken as a record exactly if they are the words of that record and name only known domains |
| SecocStore.SaveReads | shared/secoc_store/src/secoc_store.c:246-289 | Wherever an erase-body-mark save stops, the target slot reads as the new record, as what it read before, or as no record; a finished save reads as the new record |
| SecocStore.MountSound | shared/secoc_store/src/secoc_store.c:170-222 | After any failed or interrupted saves a mount of a store that was OK is OK and finds the mirrored record or one attempted since; a BROKEN store stays BROKEN |
| SecocStore.CommitSound | shared/secoc_store/src/secoc_store.c:246-289 | A commit keeps flash and RAM in agreement; success means the next record is mirrored, any failure leaves RAM alone; without a fault it succeeds |
| SecocStore.FreshnessStore.MountSlots | shared/secoc_store/src/secoc_store.c:170-222 | The slot scan leaves exactly the RAM image of the specification: the higher save number wins, no valid record and not blank is BROKEN |
| SecocStore.FreshnessStore.CommitEpoch | shared/secoc_store/src/secoc_store.c:246-289 | Erase, body, mark and read-back with a fault anywhere leave exactly the flash, RAM and result of the specification |
| StoreRuns.CrashAtomic | shared/secoc_store/src/secoc_store.c:101-289 | Over every run of commits, failures, power cuts and reboots: while a record is held (last acknowledged or mounted), the next mount is OK with that record or one attempted since, never older, cold or BROKEN, and exactly that record if nothing was attempted since |
| StoreRuns.HeldForever | shared/secoc_store/src/secoc_store.c:170-289 | Once some record is held, every later state of the run holds one, and never an older one |
| StoreRuns.NeverOlder | shared/secoc_store/src/secoc_store.c:101-289 | Relative to any record acknowledged or mounted earlier in the run: after any number of failed or cut commits with reboots between them a mount finds that record or one that a commit since then saved or tried to save, never an older one |
| StoreRuns.AckedIsClean | shared/secoc_store/src/secoc_store.c:246-289 | An acknowledged commit is such a record, with no attempt pending |
| StoreRuns.AcknowledgedIsDurable | shared/secoc_store/src/secoc_store.c:246-289 | A commit that returned true is what every later mount loads until a new attempt, through any number of reboots, with the other domain as it was before the commit |
| StoreRuns.NeverLoaded | shared/secoc_store/src/secoc_store.c:231-243 | On every run, a domain of which no commit was tried is never loaded, whatever happened to the other |
| StoreRuns.CommitEndsAs | shared/secoc_store/src/secoc_store.c:246-289 | A commit on a usable store succeeds exactly when it meets no fault, and loses power exactly when its fault cuts it |
| StoreRuns.FactoryCommitBreaks | shared/secoc_store/src/secoc_store.c:170-289 | A commit on any store without a record makes it mount BROKEN if and only if its fault tears the mark word while it is programmed so that it does not read blank, or interrupts the erase so that the mark word does not read blank and no valid record is left whole |
| StoreRuns.BrokenExactly | shared/secoc_store/src/secoc_store.c:170-289 | Over every run, step by step: after a commit attempted without a record the next mount is BROKEN exactly if that commit breaks the store; any other step leaves the answer as it was, and with a record held the answer is no |
| StoreRuns.FirstCommitCanBreak | shared/secoc_store/src/secoc_store.c:213-220 | Both kinds of fault do break the first commit on blank flash |
| SecocFreshness.TxContext.Boot | shared/secoc/src/secoc_freshness.c:41-74 | Boot spends epoch E + 1 only after it was committed; on failure the context is unchanged |
| SecocFreshness.TxContext.Next | shared/secoc/src/secoc_freshness.c:78-110 | The next value is one past the ID's counter, or counter 1 of a freshly committed epoch when the counter has run out; a failed commit draws nothing |
| SecocFreshness.TxContext.AdoptFloor | shared/secoc/src/secoc_freshness.c:113-133 | A floor above the epoch is committed and then adopted with all counters cleared; a floor that is not above is refused; on a context that was never booted the store pointer is null and the node crashes |
| SecocFreshness.RxContext.Check | shared/secoc/src/secoc_freshness.c:172-193 | The verdict for a pair: unknown ID, below the floor, newer epoch, or counter compared with the high-water mark |
| SecocFreshness.RxContext.Accept | shared/secoc/src/secoc_freshness.c:197-222 | A newer epoch is durable before it is adopted; a failed commit changes no receiver state |
| SecocFrame.CtEqual | shared/secoc/src/secoc.c:44-56 | The accumulate-all comparison is equality |
| SecocFrame.VerifyFrame | shared/secoc/src/secoc.c:126-156 | The check builds the MAC input, compares the tag and only then writes: nothing is written unless the tag matches, and then exactly the PDU |
| SecocFrame.VerifyConfigured | shared/secoc/src/secoc.c:207-232 | With a configured length the frame must have the secured length up to its CAN FD padding; the result is that of the specification and the buffer holds exactly a verified PDU or what it held |
| SecocFrame.VerifyUnconfigured | shared/secoc/src/secoc.c:167-187 | The same with the length inferred from the frame |
| SecocFrame.BuildMacInput | shared/secoc/src/secoc.c:59-72 | The filled buffer is Data-ID, freshness and PDU in the stated layout |
| SecocFrame.SecureFrame | shared/secoc/src/secoc.c:74-121 | The filled frame is PDU, freshness and truncated tag, or nothing when it does not fit or the MAC fails |
| SecocFrame.MacInputLayout | shared/secoc/src/secoc.c:59-72 | The MAC input byte by byte: Data-ID, epoch, counter, each low byte first, then the PDU |
| SecocFrame.FrameLayout | shared/secoc/src/secoc.c:74-121 | The secured frame byte by byte, and exactly when there is one: PDU, epoch, counter, first eight tag bytes |
| SecocFrame.MacInputInjective | shared/secoc/src/secoc.c:59-72 | Equal MAC inputs come from equal IDs, freshness bytes and PDUs |
| SecocFrame.SecureVerify | shared/secoc/src/secoc.c:74-232 | A secured frame with any padding up to its CAN FD length verifies, with the original freshness and PDU, when the PDU length is given |
| SecocFrame.VerifiedMeans | shared/secoc/src/secoc.c:126-156 | A frame verifies only if its tag is the truncated MAC of exactly the ID, freshness and PDU that are handed out |
| SecocFrame.FdLenLeast | shared/secoc/src/secoc.c:189-205 | The computed frame length is the least valid CAN FD length that holds n bytes |
| SecocRx.SecocReceiver.Process | shared/secoc/src/secoc_rx.c:68-132 | One frame gives exactly one event and one counter; MAC before freshness before commit before accept; no PDU is reported unless accepted; the caller's buffer is left alone exactly on a MAC drop and otherwise holds the verified PDU |
| SecocRx.EventsMean | shared/secoc/src/secoc_rx.c:46-132 | Which event belongs to which verdict: reason 2 for a wrong length, 3 without an oracle answer, 1 for a wrong tag, in this precedence; freshness drops and acceptances carry the ID and the counter of the frame |
| SecocRx.ReplayIsWritten | shared/secoc/src/secoc_rx.c:89-132 | Every replay shows it: a frame that was accepted and comes again is dropped for its freshness, and its PDU stands in the buffer |
| SecocApp.Node.PowerOn | node_a_gateway/app/src/secoc_app.c:65-87 | Start-up mounts the store, then boots sender and receiver in that order; without a usable store the node comes up unbooted |
| SecocApp.SecuredLengths | shared/messages/src/body_msgs.c:69-82 | The protected IDs and their frames: 13 bytes for commands, 15 for telemetry, 14 for syncs, all padded to 16 |
| SecocApp.Node.BuildSecured | node_b_actuator/proj_cm7/src/secoc_app.c:150-169 | A frame is built with exactly the freshness value drawn for it; no frame goes out unless the value was drawn and the MAC computed |
| SecocApp.Node.BuildBootSync | node_a_gateway/app/src/secoc_app.c:200-215 | The boot sync is a secured frame on the node's own sync ID that carries its receive floor |
| SecocApp.Node.Handle | node_a_gateway/app/src/secoc_app.c:122-148 | A received frame is processed once; an accepted sync additionally adopts the floor in it |
| SecocSystem.Authentic | shared/secoc/src/secoc.c:126-156 | With an ideal MAC, a frame that verifies at a receiver carries a message its peer really sent, under that ID and with that freshness |
| SecocTheorems.TraceInv | shared/secoc/src/secoc_rx.c:68-132 | Every state of every run of the two nodes and the hostile bus satisfies the invariant of both nodes and both directions |
| SecocTheorems.InOrderAtMostOnce | shared/secoc/src/secoc_rx.c:68-132 | On every CAN ID what a node accepted is an in-order, duplicate-free subsequence of what its peer sent on that ID, under drops, duplicates, reordering, corruption, re-labelling, power cuts and failed commits |
| SecocTheorems.FreshnessGoesUp | shared/secoc/src/secoc_freshness.c:41-222 | Per ID the (epoch, counter) pairs drawn, and those accepted, go strictly up over the whole run; no drawn epoch exceeds the acknowledged one, and neither exceeds what the next mount loads |
| SecocTheorems.EpochBudget | shared/secoc/src/secoc_freshness.c:58-133 | A sender's durable epoch is at most its boots plus the peer's boots plus the epochs whose counter it used up |
| SecocTheorems.RolloverCost | shared/secoc/src/secoc_freshness.c:91-103 | Each epoch in the budget's rollover term cost at least 65535 draws on one ID |
| SecocResync.FloorFollowsSender | shared/secoc/src/secoc_freshness.c:140-169 | In every reachable state a receiver's floor is at most one past its peer's durable epoch |
| SecocResync.NoDeadlock | node_a_gateway/app/src/can_task.c:208-220 | In every reachable state of two running nodes at least one has reached the other's floor, so it can be heard |
| SecocResync.OpenSinceBoot | node_a_gateway/app/src/can_task.c:208-220 | From its boot until its peer boots, a node is such a node, whatever it has drawn, rebuilt, sent, received or lost since |
| SecocResync.SyncIsFresh | node_a_gateway/app/src/secoc_app.c:200-215 | The sync of a node that has reached its running peer's floor is fresh to the peer, however often it was rebuilt and whatever else was drawn |
| SecocResync.SyncIsHeard | shared/secoc/src/secoc_rx.c:134-149 | A fresh sync is accepted with any CAN FD padding, and the peer's epoch is then at least the floor in it |
| SecocResync.DataIsHeard | shared/secoc/src/secoc.c:207-232 | Once the floor is reached the peer's next frame, padded or not, is accepted with its original PDU |
| SecocResync.ResyncCompletes | node_b_actuator/proj_cm7/src/secoc_app.c:122-199 | From any reachable state in which a node has reached its running peer's floor, sync, adoption and the next frame complete: the node accepts exactly the message the peer sent, and from then on each has reached the other's floor |
| SecocResync.SentMayBeDelivered | node_a_gateway/app/src/secoc_app.c:122-148 | The ideal-MAC hypothesis always allows the delivery of a sent frame, so the resync exchange is possible in every reachable state |
| SecocDeaf.ClosedMeansDeaf | shared/secoc/src/secoc_freshness.c:140-193 | In every reachable state of two running nodes, a closed direction has its floor exactly one past the sender's epoch, which is all the sender ever drew |
| SecocDeaf.ClosesExactly | shared/secoc/src/secoc_freshness.c:140-169 | Over every run, a direction between nodes that keep running closes exactly when its receiver boots and loads the sender's present epoch |
| SecocDeaf.DeafExactly | node_a_gateway/app/src/can_task.c:208-220 | Over every run, a deaf node accepts nothing the bus can deliver, and its deafness ends exactly when the sender comes up from a boot, adopts the floor in a sync, or rolls over to a new epoch |
| SecocDeaf.StaysDeaf | node_a_gateway/app/src/can_task.c:208-220 | So until such a step it lasts, through any number of reboots of the deaf node and frames sent to it |
| SecocDeaf.RolloverTakes | shared/secoc/src/secoc_freshness.c:91-103 | The rollover that would end it costs at least 65535 draws of one ID in the epoch |
| SecocDeaf.DeafIsReachable | node_a_gateway/app/src/can_task.c:208-220 | It happens: both nodes boot, the actuator accepts a command, boots again, and its one sync goes out and is lost |
| SecocUnbooted.CrashExactly | node_a_gateway/app/src/secoc_app.c:79-83 | Over every run, a node goes through the null store pointer exactly in the steps in which it is up, its sender was not booted, and it accepts its peer's sync; it is then down |
| SecocUnbooted.BootedStaysSafe | shared/secoc/src/secoc_freshness.c:41-133 | A sender that booted stays booted until the next boot, so none of those steps crashes the node |
| SecocUnbooted.CrashIsReachable | node_a_gateway/app/src/secoc_app.c:79-83 | It happens: the gateway's first boot fails to save its epoch, and the actuator's first sync takes it down |
| LogRecord.CrcAgrees | host_tools/lib/log_decode.py:61-72 | The host's CRC over unbounded integers and the target's 16-bit register compute the same value for all bytes |
| LogRecord.RecordRoundTrip | shared/log/src/log.c:157-170 | The host accepts every record the target encodes and reads back all six fields |
| LogRecord.RecordLayout | shared/log/src/log.c:157-170 | The record byte by byte: sync, core and sequence number, event, time, both arguments, CRC of the first fourteen bytes, all low byte first |
| LogRecord.AcceptedExactly | host_tools/lib/log_decode.py:165-196 | The host accepts a candidate exactly if it is the encoding of a record, namely of the one it reads from it |
| LogRing.ByteRing.CopyIn | shared/log/src/log.c:53-71 | A copy that is split at the buffer's end writes each byte at its index modulo the capacity and nothing else |
| LogRing.ByteRing.TryEnqueue | shared/log/src/log.c:92-124 | All or nothing: both pieces are appended to the contents in one step exactly when they fit, across wrap of the 32-bit indices and of the buffer |
| LogRing.ByteRing.Front | shared/log/src/log.c:319-323 | The chunk offered to the sink is a non-empty prefix of the contents, within the limit |
| LogRing.ByteRing.Consume | shared/log/src/log.c:330-331 | Advancing the tail by n drops exactly the first n bytes |
| LogRing.SplicedAppends | shared/log/src/log.c:53-124 | Writing behind the window of a circular buffer appends to it and keeps what was there |
| LogChannel.Channel.Evt | shared/log/src/log.c:198-231 | An event is queued with the next sequence number, after an overflow report if drops are pending, or is counted as dropped; nothing else changes |
| LogChannel.Channel.Text | shared/log/src/log.c:236-268 | The first 64 characters are queued whole or counted as dropped; a high-bit byte among them makes the call a no-op |
| LogChannel.Channel.Drain | shared/log/src/log.c:285-340 | Whatever the sink does, what it took followed by what is still queued is unchanged, at most the limit is moved, the status says whether the queue was empty or emptied, and it is BLOCKED exactly when the sink refused or took less than it was offered |
| LogChannel.Channel.Flush | shared/log/src/log.c:348-398 | At most 2 * LOG_FLUSH_MAX_STALL + 1 rounds whatever clock and sink do; true only with an empty queue and an idle sink; false only when the last clock reading, and no earlier one, was at least the timeout after the first, or the sink refused or was busy at least LOG_FLUSH_MAX_STALL times; no byte lost or reordered |
| LogTheorems.LogEndToEnd | host_tools/lib/log_decode.py:146-231 | For every run of the channel and every way of cutting the drained bytes into feeds, the decoder yields the accepted records and text in order, no resync, no gap; everything accepted once the queue is empty |
| LogTheorems.EvtAppends | shared/log/src/log.c:198-231 | An event call is taken exactly when its records fit; then its last unit is one record with exactly the event, time, arguments and core of the call, behind an overflow report with the pending count exactly when drops are pending |
| LogTheorems.UnitsAreLogged | shared/log/src/log.c:198-268 | On every run the queued units are exactly the events and characters of the calls that were taken, in order |
| LogTheorems.LoggedIsDecoded | host_tools/lib/log_decode.py:146-231 | From the calls to the host: once a run is drained, however the bytes are cut, the decoder has yielded exactly the taken events with their arguments and times, in the order of the calls, and exactly the text |
| LogGaps.LossIsOneGap | host_tools/lib/log_decode.py:198-231 | If n records are missing from a stream, the decoder yields what is there and exactly one gap of n modulo 64 at the place of the loss, none for a multiple of 64 or before a boot event, and no resynchronisation |
| LogGaps.EveryByteCounted | host_tools/lib/log_decode.py:165-196 | For any bytes whatever: text, records of 16 bytes, skipped bytes and what is kept back add up to all of them, and the counters say what was yielded |
| LogGaps.NothingInvented | host_tools/lib/log_decode.py:165-196 | For any bytes whatever: every record yielded stands in them, encoded |
| LogTheorems.DropsAccounted | shared/log/src/log.c:126-231 | Overflow counts accepted plus the pending count equal the drops, modulo 2^32, when the application does not log the overflow event itself |
| LogTheorems.DrainDecodes | host_tools/lib/log_decode.py:165-196 | One drain of the decoder over any prefix of a clean stream yields its units and keeps back less than one record |
| LogTheorems.FeedsDecode | host_tools/lib/log_decode.py:146-196 | The result does not depend on how the stream is cut into feeds |
| LogTheorems.RunInv | shared/log/src/log.c:92-340 | On every run, bytes given to the sink followed by the queue are the bytes of the accepted units, within capacity, with consecutive sequence numbers |
| LogDecoder.Decoder.Push | host_tools/lib/log_decode.py:146-148 | The feed method does what the recursive decoder does on the buffered bytes plus the new ones |
| LogDecoder.Decoder.DrainAll | host_tools/lib/log_decode.py:165-196 | The scan loop (text run, candidate, CRC, one-byte resync) yields the items and state of the recursive decoder |
| IsoTp.Transport.OnCf | shared/diag/src/isotp.c:178-208 | A consecutive frame in order adds what is missing, at most 63 bytes; one out of order ends the reception |
| IsoTp.Transport.TxSendBlock | shared/diag/src/isotp.c:72-96 | The send loop emits the granted consecutive frames and no more |
| IsoTp.Transport.OnFc | shared/diag/src/isotp.c:210-230 | A clear-to-send grants its block size, or 65535 for 0; overflow abandons the message; anything else is ignored |
| IsoTp.Transport.PollBus | shared/diag/src/isotp.c:232-253 | All queued frames are handled in order, then a reception whose last accepted frame is N_Cr or more ago ends in a timeout |
| IsoTp.HandleOk | shared/diag/src/isotp.c:140-230 | No frame of any kind, with any content and declared length, makes the received length exceed the 4096-byte buffer or the sender run past its message |
| IsoTp.HandleAllOk | shared/diag/src/isotp.c:140-230 | The same over every sequence of frames |
| IsoTpPolls.PollTimesOut | shared/diag/src/isotp.c:248-252 | A reception still open after the frames of a poll stays open exactly if less than 1000 ms have passed since its last accepted frame, and otherwise ends in ERROR_TIMEOUT |
| IsoTpPolls.StallIsFinal | shared/diag/src/isotp.c:178-253 | After a stall that a poll has seen no later consecutive frame, in whatever polls, completes the message or adds a byte |
| IsoTpPolls.CompletesInTime | shared/diag/src/isotp.c:178-253 | A reception through polls completes exactly when the frames of some first polls deliver it and none of those polls came 1000 ms or more after the last frame |
| IsoTpTheorems.SendAccepted | shared/diag/src/isotp.c:98-138 | A message is refused exactly if it is longer than 4096 bytes or another is being sent; otherwise exactly its single or first frame goes out and the rest waits |
| IsoTpTheorems.TakenOnce | shared/diag/src/isotp.c:255-264 | What is taken is the received message, whole, if there is one and it fits, and only once; a reception begun over it is given up |
| IsoTpTheorems.ReassemblyExact | shared/diag/src/isotp.c:178-208 | A reception completes exactly when enough consecutive frames came and their numbers count up modulo 16, and then holds exactly their payload |
| IsoTpTheorems.ClientToTarget | host_tools/uds_flash/uds_flash.py:141-154 | Every message of 0 to 4096 bytes segmented by the client, with any padding, is received whole and answered with one flow control |
| IsoTpTheorems.ClientThroughPolls | shared/diag/src/isotp.c:232-264 | The same through polls, however the frames fall into them, while no poll sees the reception stalled for N_Cr |
| IsoTpTheorems.LossDetected | shared/diag/src/isotp.c:178-208 | Fewer consecutive frames than the message has, in any selection, order and with any content, never complete it |
| IsoTpTheorems.DeclaredLength | shared/diag/src/isotp.c:151-208 | A completed message has the declared length if and only if at least 59 bytes were declared; otherwise it has 122 |
| IsoTpTheorems.WholeUnless | shared/diag/src/isotp.c:151-176 | What can be taken is a whole message, except exactly when an acceptable first frame arrives over an untaken message: then its first 59 bytes can be taken |
| IsoTpTheorems.SingleFrameReach | shared/diag/src/isotp.c:140-149 | The message of a single frame depends on the frame alone if and only if it states at most 62 bytes; beyond that it contains memory behind the frame buffer |
| IsoTpTheorems.TooLongRefused | shared/diag/src/isotp.c:151-160 | A message above 4096 bytes, which the client starts to send, is refused at its first frame, without a flow control |
| IsoTpTheorems.MixedReassembly | shared/diag/src/isotp.c:178-230 | A reception interleaved with flow control for the other direction completes exactly when the consecutive frames before the first abort of the sending side deliver the message, and with exactly their payload |
| IsoTpTheorems.AllHeard | shared/diag/src/isotp.c:210-230 | Every consecutive frame counts unless an overflow status arrives while a message is being sent |
| IsoTpTheorems.MixedSending | shared/diag/src/isotp.c:178-230 | Consecutive frames of a reception do not change what the sender emits under the flow control among them |
| IsoTpTheorems.SenderUnderFlowControl | shared/diag/src/isotp.c:98-230 | Under any sequence of flow-control frames with any status and block size, the sender has emitted exactly the first frame and the granted number of consecutive frames of the canonical segmentation |
| IsoTpTheorems.BlockSends | shared/diag/src/isotp.c:72-96 | One block emits the next frames of the segmentation in order and stops at the grant or the end of the message |
| IsoTpTheorems.OneFlowControl | shared/diag/src/isotp.c:175-175 | With the single flow control a receiver sends, a message between two such modules arrives if and only if it has at most 563 bytes |
| IsoTpTheorems.TargetToClient | host_tools/uds_flash/uds_flash.py:156-174 | The client receives exactly the messages of at most 563 bytes, with any padding, and times out on longer ones |
| IsoTpLoop.LoopDelivers | shared/diag/src/isotp.c:72-230 | Two modules that get exactly each other's frames, with any padding and in any order of deliveries: every run comes to rest within ten deliveries, and then the message has arrived if and only if it has at most 563 bytes |
| IsoTpLoop.ClientLoop | host_tools/uds_flash/uds_flash.py:156-174 | A module that gets what the client answers and a client that gets what the module sends: the client receives exactly the messages of at most 563 bytes and times out on longer ones |
| UdsClient.Send | host_tools/uds_flash/uds_flash.py:141-154 | The client sends the whole canonical segmentation if it is one frame or the answer is clear-to-send, and only the first frame otherwise; nothing if the length does not fit 32 bits |
| UdsClient.Receive | host_tools/uds_flash/uds_flash.py:156-174 | The receive loop returns what the recursive specification collects, and sends one flow control after a first frame |
| UdsClient.CollectDecides | host_tools/uds_flash/uds_flash.py:156-174 | The client's reception exactly: frames in order go on, the wrong frame or number is an error, enough bytes give exactly the declared number of them, no frame is a timeout |
| UdsClient.CtsIsStatusZero | host_tools/uds_flash/uds_flash.py:141-154 | Only a flow control with status 0 lets the client go on |
| SysMgr.Manager.OnTick | shared/sysmgr/src/sysmgr.c:142-189 | A tick advances only the first entry that is not terminal, as the specification says for the answers the callbacks gave, and calls exactly the callbacks it says, in order |
| SysMgrTheorems.InitAfterDeps | shared/sysmgr/src/sysmgr.c:142-168 | On every run init is called, first time or retry, only while all dependencies are READY |
| SysMgrTheorems.TerminalForever | shared/sysmgr/src/sysmgr.c:142-189 | READY, DEGRADED and FAILED entries never change again |
| SysMgrTheorems.ResetOnce | shared/sysmgr/src/sysmgr.c:105-108 | The reset callback is called at most once for each entry |
| SysMgrTheorems.BootsUntouched | shared/sysmgr/src/sysmgr.c:28-42 | Bring-up starts with every entry untouched, at most sixteen of them |
| SysMgrTheorems.GivenUpAs | shared/sysmgr/src/sysmgr.c:99-115 | On every run, a tick that gives an entry up leaves what its policy names: DEGRADE degrades it without a reset, SYSTEM_RESET fails it and resets, RETRY_INPLACE never gives up |
| SysMgrTheorems.GivenUpAfter | shared/sysmgr/src/sysmgr.c:86-115 | And that happens only when init has been called max_retries + 1 times |
| SysMgrTheorems.InitLeadsTo | shared/sysmgr/src/sysmgr.c:117-140 | On every run, a successful init makes an entry without a poll READY and starts the poll of one with it; a failed one is retried unless the entry is given up |
| SysMgrTheorems.FailedMeansReset | shared/sysmgr/src/sysmgr.c:104-108 | On every run, an entry is FAILED exactly if the reset callback was called for it, once, and only under SYSTEM_RESET |
| SysMgrTheorems.PolledUntilTimeout | shared/sysmgr/src/sysmgr.c:176-188 | On every run, a polled entry becomes READY exactly when the poll says so, and its attempt fails exactly when it has a timeout that has passed since its last init call |
| SysMgrTheorems.ReadyMeansDepsReady | shared/sysmgr/src/sysmgr.c:142-168 | On every run, an entry that is READY has all its dependencies READY from then on for ever |
| SysMgrTheorems.LostDepsDegrade | shared/sysmgr/src/sysmgr.c:148-160 | On every run, an open entry one of whose dependencies ended without being READY is never initialised, resets nothing, and can only end DEGRADED with no attempt made |
| SysMgrTheorems.AttemptsBounded | shared/sysmgr/src/sysmgr.c:86-140 | init is called as often as the attempts counter says, at most max_retries + 1 times |
| SysMgrTheorems.ExhaustedIff | shared/sysmgr/src/sysmgr.c:86-115 | With earlier-only dependencies, some run gives an entry up if and only if its policy is not RETRY_INPLACE and max_retries is below 255, where the 8-bit counter can exceed the limit |
| SysMgrTheorems.Settles | shared/sysmgr/src/sysmgr.c:142-204 | With earlier-only dependencies, exhaustible retries and timeouts on polled entries, the table is settled after at most the sum of (max_retries + 1) * (timeout + 1) ticks of an advancing clock, and stays so |
| SysMgrTheorems.WaitsForever | shared/sysmgr/src/sysmgr.c:142-168 | An entry that names an entry that is missing or not earlier, and none that was lost, waits for ever: no later tick changes or calls anything |
| Sched.Scheduler.Delay | scheduler/src/sched.c:292-316 | Zero is a yield; a user task blocks, its priority's bit is recomputed and the next task runs; idle and not-started are left alone |
| Sched.Scheduler.Tick | scheduler/src/sched.c:324-373 | Delays count down, tasks that reach zero become READY, the index rotates among equals, and the switch request is the specified one |
| Bits.CtzIsLowest | scheduler/src/sched.c:78-82 | The trailing-zero count is the position of the lowest set bit |
| SchedTheorems.ChooseMostUrgent | scheduler/src/sched.c:128-142 | Selection finds a most urgent runnable user task, or idle exactly when there is none |
| SchedTheorems.StepInv | scheduler/src/sched.c:182-373 | Every operation keeps the invariant; start, yield and a blocking delay of a user task leave a most urgent task running |
| SchedTheorems.InitInv | scheduler/src/sched.c:182-211 | The state sched_init leaves satisfies the invariant: nothing ready, idle READY, no task current |
| SchedTheorems.RunInv | scheduler/src/sched.c:71-373 | On every run the bitmap bit of a priority is set if and only if a user task of that priority is READY or RUNNING, and once started exactly the current task, idle included, is RUNNING |
| SchedTheorems.WakesOnTime | scheduler/src/sched.c:332-352 | A task with n ticks to go stays blocked while fewer ticks have passed and is READY, with its bit set, after the n-th, whatever else is called |
| SchedTheorems.DelayedExactly | scheduler/src/sched.c:292-352 | sched_delay(n) blocks the calling user task for exactly n later ticks |
| SchedTheorems.NoSwitchNeeded | scheduler/src/sched.c:332-372 | When a tick requests no switch, a running user task is still most urgent; over idle only tasks of idle's own priority can have become ready |
| SchedTheorems.TickAsksExactly | scheduler/src/sched.c:324-372 | With a user task running, a tick asks for a switch exactly when it wakes a more urgent task or another task can then run at the same priority; in the latter case that priority's index moves on by one, and no other index moves |
| SchedTheorems.TimeSlicing | scheduler/src/sched.c:350-363 | Time slicing is fair to tasks that never yield: with k of at least 2 ready at the top priority and no wake-up at that priority or above, ticks alone select each within k + (8 mod k) ticks, from any point on |
| SchedTheorems.CreateReports | scheduler/src/sched.c:217-259 | Creation succeeds exactly if entry, stack, priority and room are all right and reports the first that is not; success fills the next slot with a READY task, failure changes nothing |
| SchedTheorems.RoundRobin | scheduler/src/sched.c:100-123 | With k tasks ready at the top priority, yields alone select each of them within k + (8 mod k) yields, from any point on |
| SchedTheorems.RoundRobinSharp | scheduler/src/sched.c:100-123 | The bound is exact for every k: from any point on, after fewer than 8 yields the next selection of one of the tasks takes k + (8 mod k) yields and no fewer |
| ProtRegion.RegionCover | shared/prot/src/prot_region.c:33-89 | The loops compute the descriptor of the specification, with the masks taken on 64-bit words |
| ProtRegion.EncodeSizeExact | shared/prot/src/prot_region.c:13-31 | A size has code c if and only if it is 2^(c + 1) and at least 256 |
| ProtRegion.MaskIsFloor | shared/prot/src/prot_region.c:53-53 | base & ~(2^n - 1) is the base rounded down to a multiple of 2^n |
| ProtRegion.SmallestRegion | shared/prot/src/prot_region.c:47-64 | The region found holds the range, and no aligned power-of-two region of at least 256 bytes that does is smaller |
| ProtRegion.WholeSpaceIff | shared/prot/src/prot_region.c:49-64 | All 2^32 bytes are needed if and only if the range straddles 2^31 |
| ProtRegion.EnabledRun | shared/prot/src/prot_region.c:69-85 | The enabled eighths are one contiguous run that covers the range with less than one eighth of spill at each end, and none exactly when both ends are multiples |
| ProtRegion.CoverIsRight | shared/prot/src/prot_region.c:33-89 | A descriptor exists exactly for non-empty ranges in the 32-bit space; it is the smallest region, its code means its size if and only if the range does not straddle 2^31, its run covers the range, and exact says whether the run is the range |
| CryptoMsg.EnvelopeRoundTrip | shared/crypto/src/crypto_msg.c:34-90 | Every envelope of up to 128 payload bytes survives encoding and decoding, whatever bytes follow |
| CryptoMsg.MacRequestRoundTrip | shared/crypto/src/crypto_msg.c:178-235 | The server parses the key and message the client put in, if and only if they fit |
| CryptoMsg.DecodeExactly | shared/crypto/src/crypto_msg.c:61-90 | Bytes decode to an envelope exactly if they begin with its encoding |
| CryptoMsg.ParseExactly | shared/crypto/src/crypto_msg.c:178-235 | A payload is parsed as a MAC request exactly if it begins with key, length and message |
| CryptoMsg.EncodeInto | shared/crypto/src/crypto_msg.c:34-59 | The byte loop fills the buffer with the encoding, or touches nothing when it does not fit |
| CryptoRpc.RequestFits | shared/crypto/src/crypto_service.c:111-134 | The client's own limit is 122 message bytes, but the request fits the mailbox if and only if the message has at most 119 |
| CryptoRpc.ReplyIsAnswer | node_b_actuator/proj_cm0p/src/crypto_ops_cm0p.c:72-101 | The client reads, from the reply to its own request, exactly the tag or refusal of the server for that key and message |
| CryptoRpc.ServedExactly | shared/crypto/src/crypto_dispatch.c:33-75 | What the secure core answers to any bytes: sixteen tag bytes exactly to a MAC request for an AES key of 16 bytes that the hardware answers, otherwise one error byte under the operation asked for, or under 0 |
| CryptoRpc.TagTaken | shared/crypto/src/crypto_service.c:140-164 | The client takes a tag from a reply exactly if it is a MAC reply of at least sixteen bytes |
| CryptoRpc.Port.Transact | shared/crypto/src/ipc_mailbox.c:12-78 | BUSY comes only from a refused lock; otherwise the server is shown exactly the request and this core looks until it finds an answer or a clock reading is at least the timeout after the doorbell: a reply is exactly what the other core left, TIMEOUT means no look found anything, MALFORMED that what was left does not fit; the lock is released on every path; at most timeout + 1 looks, plus one for each reading at which the clock stood still |
| CryptoRpc.Port.CryptoMac | shared/crypto/src/crypto_service.c:102-164 | One transaction with exactly the request of this key and message; longer messages never reach the mailbox; the tag is the one in what the secure core left after that request, and there is none without it |
| CryptoSystem.StepInv | node_b_actuator/proj_cm0p/src/main_cm0p.c:52-66 | Every byte copied and every register written by a client or the server keeps the protocol invariant |
| CryptoSystem.LockFollowsTransactions | shared/crypto/src/ipc_mailbox.c:30-78 | On every run, timeouts included, the channel lock is held exactly by the one task inside a transaction |
| CryptoSystem.PayloadHasOneUser | node_b_actuator/proj_cm0p/src/main_cm0p.c:52-66 | Until some wait times out, the server touches the payload only while the one client in a transaction waits |
| CryptoSystem.OverlapAfterTimeout | shared/crypto/src/ipc_mailbox.c:54-60 | After every timeout, whatever the server is doing when it comes, a run follows in which the client is writing any next request while the server works on the abandoned one |
| CryptoSystem.OverlapIsReachable | shared/crypto/src/ipc_mailbox.c:54-60 | Such a state is reached from start-up: bell, fetch, timeout, next call |
| CryptoSystem.MacIsTransparent | shared/crypto/src/crypto_service.c:102-164 | Over every interleaving without a timeout, a crypto_mac call that was not BUSY returns exactly the server's CMAC answer for that key and message if it has at most 119 bytes, and fails otherwise |
| CryptoSystem.AlwaysProgress | node_b_actuator/proj_cm7/src/port_crypto.c:56-88 | A transaction in progress can always take a step, and every step of its task or the server brings its end closer |
| CryptoSystem.TransactionEnds | shared/crypto/src/ipc_mailbox.c:30-78 | So a transaction no one gives up on ends within its rank; other tasks' calls do not delay it |
| CryptoSystem.RankBound | shared/crypto/src/ipc_mailbox.c:30-78 | The rank of a new transaction is at most 1128 steps, one for each byte copied, register access and look |
| SecocOracle.OracleAnswers | shared/secoc/include/secoc.h:30-39 | The MAC input of every frame has at most 70 bytes and fits the mailbox; a `crypto_mac` call for it fails only if the channel was busy or the secure core gave no tag, and otherwise returns the MAC of exactly that input |
| SecocOracle.VerifiedThroughCall | shared/secoc/src/secoc.c:126-156 | Verifying a frame with the oracle is verifying it with what a run of the two cores returned |
| SecocOracle.SecuredThroughCall | shared/secoc/src/secoc.c:74-121 | Securing a frame with the oracle is securing it with what a run of the two cores returned |
| SecocOracle.FrameThroughBothCores | node_b_actuator/proj_cm7/src/secoc_app.c:27-27 | End to end: a frame made through one node's secure core verifies, with any padding, through the other's, whatever else their tasks and cores did |

## Left out

- AES-CMAC, ECDSA and SHA-256 are hardware calls; the MAC is an uninterpreted function, ideal where delivery is proved.
- Flash decay after a successful program, transient failures of a mount's reads, and CRC collisions: the cell model makes a torn word unreadable, which is what the code relies on.
- Checks of NULL arguments and of the store configuration (`cfg_ok`), which only return early.
- SecocTheorems.InOrderAtMostOnce: is stated for runs within the epoch budget and the 32-bit save number, because the code wraps both without a check.
- SecocResync.ResyncCompletes: is stated for an exchange whose four steps meet no further fault or loss; any history before them is covered, and `SecocDeaf.DeafExactly` says what happens while the sync is lost.
- SecocApp.Node.Handle: does not model the log event of a floor adoption.
- LogChannel.Channel.Evt: one call is taken as one step; preemption between reading the sequence number and the enqueue is not modelled. `log_panic` and a second initialisation in mid-stream are not modelled either.
- LogChannel.Channel.Drain: assumes that the sink takes no more than it was offered, and no concurrent producer.
- LogDecoder.Decoder.Push: text is kept as bytes; the host's replacement of non-ASCII characters, its trailing-text flush and its event names are left out.
- IsoTp.Transport.PollBus: the frame identifier, length and flags, which the handlers never read, are left out.
- UdsClient.Receive: all raised errors other than the timeout are one outcome.
- SysMgrTheorems.ExhaustedIff: is stated for tables that keep the rule of `shared/sysmgr/include/sysmgr.h:22-23` up to the entry, that dependencies come earlier; otherwise it may wait for ever before its first attempt (`WaitsForever`). That an entry without a bound is never given up needs no such rule.
- SysMgrTheorems.Settles: is stated for a clock that moves at least 1 ms per tick and less than 2^32 ms minus any timeout, since the 32-bit difference hides longer jumps.
- SchedTheorems.StepInv: a tick only requests a switch; the switch itself, stacks and the FPU are target code.
- SchedTheorems.NoSwitchNeeded: a user task at priority 31 ties with idle, so its wake-up requests no switch.
- CryptoRpc.Port.Transact: has no bound for a clock that stands still for ever, where the code would wait for ever, or that jumps over the end of its wait and wraps.
- CryptoSystem.MacIsTransparent: nothing is claimed after a wait has timed out, when the server may still be writing; the image verification and hash operations and the failure events of the client are left out.
- CryptoMsg.EncodeInto: decoding and the make and parse helpers are functions on values; the zero fill of unused payload bytes is not visible in them.
- UDS sessions and services, boot counter and decision tree, body messages, actuator state machines, drivers, RTOS glue, memory-protection setup and the bench tools: single-branch facts or vendor calls.

# Playout pipeline: model and proofs

This project models four connected parts of the playout pipeline and proves what they promise for every input, every
run and every interleaving.

1. **Transport stream output.** `TsPacket`, `Continuity` and `TsStream` give meaning to the byte stream between the
   muxer and the output callback: reassembly of chunks into 188-byte packets, the continuity counter fix of
   ISO/IEC 13818-1 (section 2.4.3.3), padding at close. `Monotonic` and `Timestamps` do the same for PTS and DTS.
   `EncoderPipeline` and `PtsController` hold the objects that update their fields in place, each method proved
   against those functions.
2. **Lock-free queues.** `SpscRing` is the ring of one producer and one consumer as interleaved atomic steps, refining
   a FIFO. `FrameRingBuffer`, `FrameProducer`, `FrameRenderer` and `ExporterThreads` build on it; `MetricsExporter` is
   the exporter object and `MetricsStore` what an event does to its maps.
3. **Schedulers.** `TickTiming` and `OrchestrationLoop` (deadlines, back-pressure), `MpegTsPlayoutSink` (early, late,
   dropped frames).
4. **Control.** `PlayoutControl` (the state machine as a function and its ledgers over whole runs),
   `PlayoutControlStateMachine` (the object) and `Percentile` (three implementations, one meaning).

Timestamps and clocks are mathematical integers and doubles are reals. Bytes are integers below 256, so masks and
shifts read as remainders and quotients. Clock samples, callback results, encoder packets and muxer chunks are
parameters: nothing is assumed of them beyond what a contract says. Ring steps are sequentially consistent: each index
is written by one thread only and published by an acquire/release pair.

What the code does where one might expect otherwise:

- The first frame after `PTSController::reset` gets PTS 1, not the 0 that reset announces
  (`PtsController.FirstFrameIsOne`); the extra tick never accumulates (`PtsController.NoDrift`).
- A packet with a DTS but no PTS can push the last DTS past a later packet's PTS; that packet's DTS then steps back
  (`Timestamps.DtsAloneBreaksOrder`). DTS order holds exactly when the second clamp never fires
  (`Timestamps.DtsStrictlyIncreasing`), and it never fires when DTS comes only with PTS (`Timestamps.NoReclampWithPts`).
- Packets drained while the encoder refuses a frame skip the timestamp rules and can break PTS order at the muxer
  (`Timestamps.DrainBreaksOrder`). `Timestamps.WrittenPtsIncreasing` and `Timestamps.WrittenDtsIncreasing` say exactly when
  PTS and DTS stay in order.
- The last PTS and DTS outlive close and open, so timestamp order holds across sessions.
- A synchronous call made while a queued event still waits overtakes it (`ExporterThreads.LateCallOvertakes`), on a queue of
  any size (`ExporterThreads.LateCallIsReachable`). `ExporterThreads.OrderExactly` gives the exact condition over whole runs:
  the order holds at every moment if and only if no synchronous call ever finds another event pending.
  `ExporterThreads.DisciplineKeepsOrder` is a rule callers can keep: Start and Stop with no call in flight, and no call
  during them. Whatever the callers do, nothing is lost or applied twice (`ExporterThreads.NothingLost`).
- An event whose call was in flight when the worker left stays queued until the next start; these are exactly the events
  pushed since then (`ExporterThreads.LeftBehind`).
- `Size()` called by a thread that is neither producer nor consumer, as the engine's depth poll is, is right for the
  moment of its second load if and only if the write index is then what it was at the first
  (`SpscRing.OutsiderExactly`), so whenever no push is completed in between (`SpscRing.OutsiderUndisturbed`). Otherwise an
  empty ring can look full (`SpscRing.OutsiderSeesFull`).
- After a stop the orchestration loop may run one last tick before its deadline (`OrchestrationLoop.Run`; a run that does
  is `OrchestrationLoop.StoppedWhileWaiting`).
- `docs/contracts/PlayoutControlDomainContract.md` (CTL_002) lets a control action past its latency threshold escalate
  to `Error`; the code only counts it. `PlayoutControl.ErrorExactly` says when the state is `Error`, and
  `PlayoutControl.LatePauseRun` is a run past the threshold that ends in `Paused`.
- The same document gives deduplication a 60 s window; the code remembers an id for ever and across kinds of command
  (`PlayoutControl.RepeatsIsDuplicate`), and acknowledges a second copy even when the first was refused
  (`PlayoutControl.RefusedThenAcknowledged`; in general `PlayoutControl.SecondCopy`).
- `transitions_` also counts illegal attempts: its entry for Error to Buffering is `recover_total` plus the sessions begun
  and the seeks refused in Error (`PlayoutControl.ErrorToBuffering`; `PlayoutControl.ErrorToBufferingRefused` is a run with
  no recovery and an entry of 1).
- At close, a receive error other than EAGAIN and EOF does not end the flush loop: if it repeats for ever, close does not
  return (`EncoderPipeline.EncoderPipeline.Close`).
- An open that fails after the callback was stored leaves it stored, since close does nothing before initialisation; the
  next open replaces it.

## Model

| member | source | states |
|---|---|---|
| TsPacket.SameButCounterFields | src/playout_sinks/mpegts/EncoderPipeline.cpp:926-939 | PID, payload flag and discontinuity indicator do not depend on the counter nibble; two packets equal up to the nibble and in the nibble are equal |
| TsPacket.ReadersReadFields | src/playout_sinks/mpegts/EncoderPipeline.cpp:926-1018 | PID, counter, adaptation and payload flags, null packets and the discontinuity indicator are the fields that ISO/IEC 13818-1, section 2.4.3.2, puts at those bits |
| TsPacket.EveryPacketCarries | src/playout_sinks/mpegts/EncoderPipeline.cpp:997-1002 | every header is such a layout of some fields |
| Continuity.FixPacketLawful | src/playout_sinks/mpegts/EncoderPipeline.cpp:997-1061 | one packet: the output obeys the continuity law after its PID's previous output, differs from the input only in the counter nibble, is flagged as corrected exactly when it differs, and is left alone exactly when it was lawful |
| Continuity.FixAllLawful | src/playout_sinks/mpegts/EncoderPipeline.cpp:1035-1061 | any packet sequence from any counters: the output is lawful, and `last_cc` of every non-null PID is the counter of that PID's last output packet |
| Continuity.ContinuityLaw | src/playout_sinks/mpegts/EncoderPipeline.cpp:1035-1061 | consecutive output packets of one non-null PID, the later without discontinuity indicator: counter is previous + 1 mod 16 with payload, unchanged without |
| Continuity.FixAllChanges | src/playout_sinks/mpegts/EncoderPipeline.cpp:1047-1057 | only low nibbles of byte 3 change, and `continuity_corrections_` grows by exactly the number of packets that differ |
| Continuity.FixAllUnique | src/playout_sinks/mpegts/EncoderPipeline.cpp:1035-1061 | any lawful stream of the input's shape with the input's counters wherever the law leaves them free is the output |
| Continuity.FixAllRestarts | src/playout_sinks/mpegts/EncoderPipeline.cpp:1038-1044 | the output itself carries the input's counters wherever the law leaves them free |
| Continuity.FixAllCharacterised | src/playout_sinks/mpegts/EncoderPipeline.cpp:1035-1061 | a stream is the output if and only if it is lawful, of the input's shape, with the input's free counters |
| Continuity.FixAllIdentity | src/playout_sinks/mpegts/EncoderPipeline.cpp:1035-1061 | a stream passes unchanged if and only if it is lawful |
| Continuity.FixAllIdempotent | src/playout_sinks/mpegts/EncoderPipeline.cpp:1035-1061 | fixing a fixed stream from the same counters changes nothing |
| Continuity.FixAllDemultiplexes | src/playout_sinks/mpegts/EncoderPipeline.cpp:1035-1061 | keeping one PID of the fixed stream equals fixing that PID's packets alone, and leaves that PID's counter the same: no PID affects another |
| Continuity.FixAllConcat | src/playout_sinks/mpegts/EncoderPipeline.cpp:1035-1061 | fixing a stream in two parts, the counters carried over, is fixing it in one |
| TsStream.ProcessSynced | src/playout_sinks/mpegts/EncoderPipeline.cpp:983-1121 | on a stream of whole packets with their sync bytes in place, the byte-by-byte loop is the packet-wise fix |
| TsStream.ChunkingInvisible | src/playout_sinks/mpegts/EncoderPipeline.cpp:1143-1193 | for every chunk sequence of at most 1 MiB - 187 bytes each over a synced stream S: delivered is the fix of the whole packets of S as one stream, the buffer holds the remaining bytes of S unchanged, counters and corrections agree |
| TsStream.WriteKeepsDelivered | src/playout_sinks/mpegts/EncoderPipeline.cpp:1143-1193 | one write of any such chunk carries the statement above from S to S + chunk |
| TsStream.SessionOutput | src/playout_sinks/mpegts/EncoderPipeline.cpp:761-822 | open, any writes, close on a synced stream: the callback got the fixed whole packets, then at most one null packet made of the partial one, then one null packet; a whole number of packets, each with its sync byte, the continuity law from first to last; buffer and counters empty |
| TsStream.SessionInTwoPhases | src/playout_sinks/mpegts/EncoderPipeline.cpp:689-822 | the same when part of the bytes is written by the muxer during close: the callback's log depends only on all bytes together |
| TsStream.WriteAllConcat | src/playout_sinks/mpegts/EncoderPipeline.cpp:1143-1193 | two runs of writes are one |
| TsStream.CloseDelivered | src/playout_sinks/mpegts/EncoderPipeline.cpp:749-822 | what close adds to any delivered prefix |
| TsStream.ProcessTouchesNibbles | src/playout_sinks/mpegts/EncoderPipeline.cpp:983-1061 | on any bytes, synced or not, the loop changes low nibbles only and moves no byte |
| TsStream.Resync | src/playout_sinks/mpegts/EncoderPipeline.cpp:987-995 | bytes without a sync byte are passed over one by one, go out as they are, and do not matter to what follows |
| TsStream.MakeRoomExactly | src/playout_sinks/mpegts/EncoderPipeline.cpp:1147-1162 | an overflow drops, from the front, the least multiple of 188 above the overflow, or everything |
| TsStream.WriteWithoutCallback | src/playout_sinks/mpegts/EncoderPipeline.cpp:1170-1184 | without a callback nothing is delivered and every byte waits, with counters fixed |
| TsStream.NullFromPartialBytes | src/playout_sinks/mpegts/EncoderPipeline.cpp:779-819 | the padded packet byte by byte: null header, the partial packet from byte 4 on, zeros |
| TsStream.CloseRounds | src/playout_sinks/mpegts/EncoderPipeline.cpp:761-838 | on any bytes, close delivers what waits rounded up to whole packets and one more, or nothing without a callback, and leaves an empty session |
| TsStream.BufferBounded | src/playout_sinks/mpegts/EncoderPipeline.cpp:1145-1162 | chunks of up to 1 MiB never make the alignment buffer outgrow 1 MiB, with or without a callback |
| EncoderPipeline.EncoderPipeline.Open | src/playout_sinks/mpegts/EncoderPipeline.cpp:72-248 | a fresh session starts with empty counters and buffer and keeps the timestamps of the last; nothing changes when already open; when FFmpeg cannot allocate it fails and stays closed |
| EncoderPipeline.EncoderPipeline.FixPacketAt | src/playout_sinks/mpegts/EncoderPipeline.cpp:997-1061 | rewrites one packet of the buffer in place as `FixPacket` does, every other byte unchanged |
| EncoderPipeline.EncoderPipeline.ProcessTSPackets | src/playout_sinks/mpegts/EncoderPipeline.cpp:983-1121 | the loop, with its resynchronisation after a byte that is not a sync byte, rewrites the first `size` bytes as `Process` does on any bytes |
| EncoderPipeline.EncoderPipeline.MakeRoom | src/playout_sinks/mpegts/EncoderPipeline.cpp:1147-1162 | the overflow drop: whole packet sizes from the front, or everything |
| EncoderPipeline.EncoderPipeline.WriteWithAlignment | src/playout_sinks/mpegts/EncoderPipeline.cpp:1143-1193 | the object's new state is the function's that `ChunkingInvisible` is about; false exactly when whole packets wait without a callback |
| EncoderPipeline.EncoderPipeline.HandleAVIOWrite | src/playout_sinks/mpegts/EncoderPipeline.cpp:1203-1222 | an empty write is a no-op; otherwise -1 exactly when the write failed |
| EncoderPipeline.EncoderPipeline.EnforceMonotonic | src/playout_sinks/mpegts/EncoderPipeline.cpp:565-618 | one packet's PTS and DTS and the remembered pair become what `Normalize` and `Remember` say |
| EncoderPipeline.TakenIsPrefix | src/playout_sinks/mpegts/EncoderPipeline.cpp:534-661 | which packets a receive or drain loop takes: a run of packets from the first answer on, within the limit, and why it ends there |
| EncoderPipeline.NoErrorExactly | src/playout_sinks/mpegts/EncoderPipeline.cpp:548-554 | the receive loop fails exactly when an error answer follows nothing but packets the muxer took or refused |
| EncoderPipeline.FrameEventsExactly | src/playout_sinks/mpegts/EncoderPipeline.cpp:465-661 | a frame sends up to five packets as they came when the encoder was busy, then up to ten under the rules if the frame was taken, each at its position |
| EncoderPipeline.EncoderPipeline.ReceivePackets | src/playout_sinks/mpegts/EncoderPipeline.cpp:528-668 | at most ten packets go under the rules to the muxer, stopping at EAGAIN, end or error; false exactly when an error ended the loop; everything handed over so far stays one sequence under the rules |
| EncoderPipeline.EncoderPipeline.DrainPackets | src/playout_sinks/mpegts/EncoderPipeline.cpp:465-511 | at most five packets go to the muxer with the times they came with, and the rules' memory stays |
| EncoderPipeline.EncoderPipeline.EncodeFrame | src/playout_sinks/mpegts/EncoderPipeline.cpp:250-669 | which packets one frame sends to the muxer, drained and received, and when it succeeds |
| EncoderPipeline.EncoderPipeline.FlushEncoder | src/playout_sinks/mpegts/EncoderPipeline.cpp:689-747 | exactly the packets before the first "no more", in order and through receive errors, go to the muxer under the rules; it ends exactly when the encoder says there is no more |
| EncoderPipeline.EncoderPipeline.Close | src/playout_sinks/mpegts/EncoderPipeline.cpp:671-916 | the session's bytes end as `TsStream.Close` says, over everything the muxer still wrote; the pipeline is closed and its timestamps kept; it returns exactly when the flush ends |
| EncoderPipeline.Session | src/playout_sinks/mpegts/EncoderPipeline.cpp:72-1222 | open, any writes, close on the object, bytes split anywhere: the callback gets exactly the session's packets |
| EncoderPipeline.MuxedInOrder | src/playout_sinks/mpegts/EncoderPipeline.cpp:465-747 | over any number of sessions the PTS and DTS handed to the muxer strictly increase exactly when every packet fits; PTS always when none was drained, DTS when moreover none came without a PTS |
| EncoderPipeline.EncoderPipeline.FlushAlignment | src/playout_sinks/mpegts/EncoderPipeline.cpp:761-804 | whole packets are fixed and delivered, the partial one becomes a null packet, the buffer ends empty |
| EncoderPipeline.EncoderPipeline.TurnIntoNull | src/playout_sinks/mpegts/EncoderPipeline.cpp:779-793 | zero padding and header writes in place give the null packet `NullFromPartial` |
| Monotonic.LiftAdmissible | src/playout_sinks/mpegts/EncoderPipeline.cpp:566-583 | the lifted sequence is strictly increasing, past the last value, never below its input |
| Monotonic.LiftLeast | src/playout_sinks/mpegts/EncoderPipeline.cpp:566-583 | it is the pointwise least such sequence |
| Monotonic.LiftClosedForm | src/playout_sinks/mpegts/EncoderPipeline.cpp:566-583 | position i is the maximum over j <= i of p[j] + (i - j) and the floor set by the last value |
| Timestamps.PtsLifted | src/playout_sinks/mpegts/EncoderPipeline.cpp:566-583 | for every packet sequence the PTS are lifted on their own, whatever the DTS do |
| Timestamps.PtsStrictlyIncreasing | src/playout_sinks/mpegts/EncoderPipeline.cpp:566-583 | output PTS strictly increase and pass the last one, for every packet sequence |
| Timestamps.DtsNotAbovePts | src/playout_sinks/mpegts/EncoderPipeline.cpp:585-618 | no output packet has a DTS above its PTS, for every packet sequence |
| Timestamps.DtsNearest | src/playout_sinks/mpegts/EncoderPipeline.cpp:585-618 | a packet keeps its DTS if it is above the last DTS and not above the PTS, otherwise gets the nearest value that is, and its PTS where none is |
| Timestamps.DtsStrictlyIncreasing | src/playout_sinks/mpegts/EncoderPipeline.cpp:599-614 | output DTS strictly increase past the last one if and only if the second clamp never fires |
| Timestamps.NoReclampWithPts | src/playout_sinks/mpegts/EncoderPipeline.cpp:604-608 | when a DTS comes only with a PTS the second clamp never fires |
| Timestamps.DtsAloneBreaksOrder | src/playout_sinks/mpegts/EncoderPipeline.cpp:585-618 | a DTS without PTS followed by an earlier packet makes DTS step back |
| Timestamps.WrittenSnoc | src/playout_sinks/mpegts/EncoderPipeline.cpp:565-734 | one more packet, from receive loop, close flush or drain, extends the one sequence handed to the muxer |
| Timestamps.WrittenReceived | src/playout_sinks/mpegts/EncoderPipeline.cpp:565-734 | without draining that sequence is the normalised one |
| Timestamps.WrittenPtsIncreasing | src/playout_sinks/mpegts/EncoderPipeline.cpp:472-511 | received and drained packets mixed in any way reach the muxer in strictly increasing PTS order if and only if each drained packet, and each received one while a drained one is ahead, passes the last PTS written |
| Timestamps.WrittenDtsIncreasing | src/playout_sinks/mpegts/EncoderPipeline.cpp:472-618 | the same for DTS, where a received packet's lifted PTS must pass the last DTS written too |
| Timestamps.DrainBreaksOrder | src/playout_sinks/mpegts/EncoderPipeline.cpp:472-511 | one drained packet after one received packet can break the order |
| PtsController.PTSController.Reset | src/playout_sinks/mpegts/PTSController.cpp:18-23 | starts an empty run at the given wall clock |
| PtsController.PTSController.PtsForFrameWallclock | src/playout_sinks/mpegts/PTSController.cpp:29-51 | 0 before reset; otherwise all PTS issued since reset stay the least strictly increasing sequence over the frames' ticks, from 1 up |
| PtsController.NoDrift | src/playout_sinks/mpegts/PTSController.cpp:29-51 | frames at or after the reset and at least 12 us apart are stamped with their own tick or the next, in runs of any length |
| PtsController.TickRate | src/playout_sinks/mpegts/PTSController.cpp:34-40 | a tick is the whole part, towards zero, of 90 per millisecond since the start; a second is exactly 90000 |
| PtsController.FirstFrameIsOne | src/playout_sinks/mpegts/PTSController.cpp:18-51 | the first frame, at the reset time, gets 1 |
| SpscRing.StepRefines | src/buffer/FrameRingBuffer.cpp:26-72 | every atomic step keeps the ring invariant; storing the write index appends to the queue, storing the read index takes its head, no other step changes it |
| SpscRing.NeverStuck | src/buffer/FrameRingBuffer.cpp:26-83 | in a reachable ring every next step of a thread can be taken: no slot is addressed out of range or read while it is being written |
| SpscRing.EveryRunSafe | src/buffer/FrameRingBuffer.cpp:26-72 | every interleaving of Push, Pop, Peek and Size: popped is a prefix of pushed, at most capacity - 1 frames wait, a slot read by Pop or Peek is in range, not the one being written, and holds the oldest frame whole; no thread is kept from its next step |
| SpscRing.EarlyReturns | src/buffer/FrameRingBuffer.cpp:30-62 | Push gives up exactly when the ring holds capacity - 1 frames at its load, Pop and Peek exactly when it is empty at theirs |
| SpscRing.PeekedIsNext | src/buffer/FrameRingBuffer.cpp:44-54 | a peeked frame stays in its slot under any producer steps and is what the next Pop returns |
| SpscRing.SizeIsOneSided | src/buffer/FrameRingBuffer.cpp:74-83 | in every interleaving Size never overestimates for the consumer and never underestimates for the producer |
| SpscRing.SizeAtRest | src/buffer/FrameRingBuffer.cpp:74-83 | with the other thread at rest Size is exact |
| SpscRing.OutsiderExactly | src/buffer/FrameRingBuffer.cpp:74-83 | a third thread's Size is right at its second load if and only if the write index is then what it was at the first, whatever steps come between |
| SpscRing.OutsiderUndisturbed | src/buffer/FrameRingBuffer.cpp:74-83 | so it is right whenever no push is completed between its two loads |
| SpscRing.OutsiderSeesFull | src/buffer/FrameRingBuffer.cpp:74-83 | otherwise a third thread can read capacity - 1 from an empty ring |
| SpscRing.PushAloneIsPush | src/buffer/FrameRingBuffer.cpp:26-42 | an uninterrupted Push appends, or changes nothing when full |
| SpscRing.PopAloneIsPop | src/buffer/FrameRingBuffer.cpp:56-72 | an uninterrupted Pop removes the head, or changes nothing when empty |
| FrameRingBuffer.FrameRingBuffer.Push | src/buffer/FrameRingBuffer.cpp:26-42 | contents grow by the frame exactly when fewer than capacity - 1 wait; the memory is that of the uninterrupted steps |
| FrameRingBuffer.FrameRingBuffer.Peek | src/buffer/FrameRingBuffer.cpp:44-54 | the oldest frame, or none when empty |
| FrameRingBuffer.FrameRingBuffer.Pop | src/buffer/FrameRingBuffer.cpp:56-72 | removes and returns the oldest frame, or none when empty; the memory is that of the uninterrupted steps |
| FrameRingBuffer.FrameRingBuffer.Size | src/buffer/FrameRingBuffer.cpp:74-83 | the number of frames waiting |
| FrameRingBuffer.FrameRingBuffer.IsEmpty | src/buffer/FrameRingBuffer.cpp:85-88 | true if and only if nothing waits |
| FrameRingBuffer.FrameRingBuffer.IsFull | src/buffer/FrameRingBuffer.cpp:90-96 | true if and only if the next Push would fail |
| FrameRingBuffer.FrameRingBuffer.Clear | src/buffer/FrameRingBuffer.cpp:146-152 | leaves an empty valid ring |
| FrameProducer.FrameProducer.ProduceStubFrame | src/decode/FrameProducer.cpp:189-241 | offers frame number n at PTS n * I; a full buffer costs a retry, never a frame or a step of the counter |
| FrameProducer.FrameIntervalUs | src/decode/FrameProducer.cpp:68-69 | the frame interval is the nearest microsecond to 1 / rate, and 1 where that would be less |
| FrameProducer.GaplessStream | src/decode/FrameProducer.cpp:189-241 | every interleaving with a consumer and any number of full-buffer retries: the popped PTS are 0, I, 2I, ... with none missing or repeated |
| FrameRenderer.EveryRun | src/renderer/FrameRenderer.cpp:211-309 | every interleaving with the producer: popped = rendered + dropped + the one in hand, decided in pop order; a frame is dropped exactly when more than 8 ms late with more than five seen waiting, and then at least six wait; every try pops or is skipped |
| FrameRenderer.MoveInv | src/renderer/FrameRenderer.cpp:211-309 | each step of loop or producer keeps that, with `frames_dropped` = `corrections_total` = number of drops |
| MetricsStore.FoldCons | src/telemetry/MetricsExporter.cpp:331-371 | applying the first event now and the rest later gives the same maps |
| MetricsStore.TransportLeft | src/telemetry/MetricsExporter.cpp:356-369 | any events: a transport has as many deliveries and failures as successful and failed records, and their latencies in order |
| MetricsStore.ChannelLeft | src/telemetry/MetricsExporter.cpp:334-343 | any events: a channel has the metrics of its last update, if no removal followed, and is absent otherwise |
| MetricsStore.VersionLeft | src/telemetry/MetricsExporter.cpp:344-350 | any events: a descriptor has its last registered version |
| MetricsStore.DeprecationLeft | src/telemetry/MetricsExporter.cpp:344-355 | any events: a descriptor is deprecated exactly when its last event is a deprecation |
| MetricsExporter.MetricsExporter.Start | src/telemetry/MetricsExporter.cpp:88-109 | runs exactly when it was not running and no HTTP start failed, with the stop flag cleared; maps and queue stay |
| MetricsExporter.MetricsExporter.Enqueue | src/telemetry/MetricsExporter.cpp:41-51 | accepted if and only if fewer than 1023 events wait; exactly one of submitted and overflow grows |
| MetricsExporter.MetricsExporter.SubmitChannelMetrics | src/telemetry/MetricsExporter.cpp:129-156 | not running: the maps change as the worker would change them; running: the event waits last in the queue and is counted as submitted, or is refused by a full one and counted as overflow; nothing else changes |
| MetricsExporter.MetricsExporter.SubmitChannelRemoval | src/telemetry/MetricsExporter.cpp:158-182 | the same, for a removal |
| MetricsExporter.MetricsExporter.RegisterMetricDescriptor | src/telemetry/MetricsExporter.cpp:184-209 | the same, for a descriptor |
| MetricsExporter.MetricsExporter.DeprecateMetricDescriptor | src/telemetry/MetricsExporter.cpp:211-232 | the same, for a deprecation |
| MetricsExporter.MetricsExporter.RecordDeliveryStatus | src/telemetry/MetricsExporter.cpp:234-267 | the same, for a delivery |
| MetricsExporter.MetricsExporter.ProcessNext | src/telemetry/MetricsExporter.cpp:319-371 | applies and removes the oldest event, or reports an empty queue |
| MetricsExporter.MetricsExporter.Stop | src/telemetry/MetricsExporter.cpp:111-127 | when it returns the queue is empty, the maps hold the fold of everything queued, processed = submitted; the other counters stay |
| ExporterThreads.RunExporterInv | src/telemetry/MetricsExporter.cpp:41-371 | every interleaving of submitter, worker and controller, step by step through Start and Stop, keeps the ring, counter, stop and flow invariants |
| ExporterThreads.NoThreadStuck | src/telemetry/MetricsExporter.cpp:41-62 | no thread is ever kept from its next step |
| ExporterThreads.NothingLost | src/telemetry/MetricsExporter.cpp:111-371 | every interleaving, whatever callers do: the maps are the fold of the applied events; applied and pending events are the accepted calls, each once; the worker has applied a prefix of what was pushed; calls = synchronous + submitted + overflowed |
| ExporterThreads.OrderExactly | src/telemetry/MetricsExporter.cpp:129-267 | applied and pending events are the calls in call order at every moment of a run if and only if every synchronous call in it finds only events equal to its own pending |
| ExporterThreads.AsyncRefinesSync | src/telemetry/MetricsExporter.cpp:111-371 | in such runs the drained maps are the synchronous branches folded over the accepted calls in order |
| ExporterThreads.DisciplineKeepsOrder | src/telemetry/MetricsExporter.cpp:88-127 | when Start and Stop begin with no call in flight, and calls begin only while the exporter runs or after Stop has returned, every run keeps the order, and once the worker is gone nothing is pending and the maps are the fold of all accepted calls |
| ExporterThreads.StopDrains | src/telemetry/MetricsExporter.cpp:111-122 | when the worker is gone, the events pushed before `stop_requested_` was set are a prefix of what it applied, each in the maps, whatever callers did |
| ExporterThreads.StopTerminates | src/telemetry/MetricsExporter.cpp:111-122 | after a stop request the worker leaves within a bounded number of its own steps, whatever the other threads do |
| ExporterThreads.WorkerCanMove | src/telemetry/MetricsExporter.cpp:316-329 | until it has left, the worker always has a next step |
| ExporterThreads.LeftBehind | src/telemetry/MetricsExporter.cpp:316-329 | while no worker runs, exactly the events pushed since the last one left stay queued |
| ExporterThreads.DrainedCheckIsRight | src/telemetry/MetricsExporter.cpp:299-314 | with no call in flight, processed >= submitted means that nothing is pending, and the converse between worker steps |
| ExporterThreads.SyncKeepsOrder | src/telemetry/MetricsExporter.cpp:129-137 | a synchronous call keeps applied and pending events in call order if and only if every pending event equals its own |
| ExporterThreads.LateCallOvertakes | src/telemetry/MetricsExporter.cpp:111-165 | a removal made while an update of that channel is pending is undone by it |
| ExporterThreads.LateCallIsReachable | src/telemetry/MetricsExporter.cpp:111-165 | on a queue of any size, a run that leaves an event behind and reaches such a state |
| TickTiming.DeadlinesGrow | src/runtime/OrchestrationLoop.cpp:153-157 | deadlines grow by at least one interval per tick |
| TickTiming.NextTick | src/runtime/OrchestrationLoop.cpp:153-157 | the next deadline is one interval after the deadline, or, from a tick more than two intervals late, one interval after that tick; so a tick that waited has its successor due within one interval |
| TickTiming.BurstBound | src/runtime/OrchestrationLoop.cpp:102-158 | the m-th tick after tick k comes no sooner than (m - 2) intervals after it, however late tick k was |
| TickTiming.BurstOfTwo | src/runtime/OrchestrationLoop.cpp:102-158 | that bound is attained |
| TickTiming.GridUntilOverrun | src/runtime/OrchestrationLoop.cpp:153-157 | the deadlines are d0 + k * I if and only if no earlier tick was more than two intervals late |
| TickTiming.IntervalUs | src/runtime/OrchestrationLoop.cpp:90-91 | the nearest microsecond to 1 / fps, and one second below 1 fps |
| OrchestrationLoop.OrchestrationLoop.Run | src/runtime/OrchestrationLoop.cpp:89-159 | on a clock that never goes back the ticks form a chain from the first deadline; each runs on the clock's answer right after the first one at or past its deadline, except the last when the stop was seen while waiting or between the two looks at the flag; until the stop no due tick is left out; skews, tick count, event counts and back-pressure statistics are exactly those of the ticks |
| OrchestrationLoop.StoppedWhileWaiting | src/runtime/OrchestrationLoop.cpp:102-117 | a stop seen while waiting gives a last tick before its deadline |
| OrchestrationLoop.OrchestrationLoop.WaitForDeadline | src/runtime/OrchestrationLoop.cpp:103-117 | polls up to the first answer at or past the deadline and no further, or to the stop |
| OrchestrationLoop.OrchestrationLoop.FinishTick | src/runtime/OrchestrationLoop.cpp:128-153 | one tick: reports before it, missed deadline, pending event, skew, count; the clock is read once more exactly when a pending event is cleared |
| OrchestrationLoop.OrchestrationLoop.RunTick | src/runtime/OrchestrationLoop.cpp:133-153 | records the skew, flags a missed deadline, handles back-pressure, counts the tick |
| OrchestrationLoop.OrchestrationLoop.ReportBackPressureEvent | src/runtime/OrchestrationLoop.cpp:67-82 | counts the event and makes it the pending one; every event reported is recovered, replaced or pending |
| OrchestrationLoop.OrchestrationLoop.ReceiveReports | src/runtime/OrchestrationLoop.cpp:67-82 | every report of a batch is counted, the last one is pending, and the balance holds |
| OrchestrationLoop.OrchestrationLoop.HandleBackPressure | src/runtime/OrchestrationLoop.cpp:171-195 | a cleared event is recovered with its time, another one ages; keeps that balance |
| OrchestrationLoop.UnclearedRaisesAlert | src/runtime/OrchestrationLoop.cpp:136-194 | in any run of ticks, an event that none clears and no report replaces raises the alert at tick max + 1 and not before, unless a tick misses its deadline |
| OrchestrationLoop.QuietRun | src/runtime/OrchestrationLoop.cpp:142-175 | with nothing pending or reported, a run of ticks changes the statistics only by missed deadlines |
| OrchestrationLoop.ReportAges | src/runtime/OrchestrationLoop.cpp:67-82 | a report replaces what was pending and ages with the ticks |
| OrchestrationLoop.ReportRecovers | src/runtime/OrchestrationLoop.cpp:171-190 | the tick that clears it books one recovery: the milliseconds from the report to the clock after that tick |
| OrchestrationLoop.EventsExactly | src/runtime/OrchestrationLoop.cpp:75 | every report counts its event once |
| OrchestrationLoop.ReportedSplits | src/runtime/OrchestrationLoop.cpp:75 | the events counted over a run are those of its parts |
| OrchestrationLoop.RereadsExactly | src/runtime/OrchestrationLoop.cpp:173-184 | the clock is read again exactly when an event is pending or reported and the tick clears it |
| OrchestrationLoop.SkewsExactly | src/runtime/OrchestrationLoop.cpp:133-134 | skews are the ticks' distances from their deadlines in ms |
| MpegTsPlayoutSink.MpegTSPlayoutSink.RunPass | src/playout_sinks/mpegts/MpegTSPlayoutSink.cpp:273-453 | a pass holds under a full queue, counts an underrun on an empty buffer, waits for an early head, or settles the head: judged by the start time in force, it is sent within -5 ms and +50 ms of start + PTS and dropped beyond; before there is one, a head between 50 ms and a second behind the clock is dropped and any other becomes the anchor |
| MpegTsPlayoutSink.MpegTSPlayoutSink.Settle | src/playout_sinks/mpegts/MpegTSPlayoutSink.cpp:411-448 | pops the head and counts it: popped = sent + dropped, dropped = late drops |
| MpegTsPlayoutSink.MpegTSPlayoutSink.WorkerLoop | src/playout_sinks/mpegts/MpegTSPlayoutSink.cpp:258-453 | runs of any length: every pass has the outcome it calls for, and settled frames, start time, underruns, frames let in and frames left are exactly those of the outcomes |
| MpegTsPlayoutSink.OneOutcome | src/playout_sinks/mpegts/MpegTSPlayoutSink.cpp:316-448 | a pass calls for one outcome only |
| MpegTsPlayoutSink.OutcomeExactly | src/playout_sinks/mpegts/MpegTSPlayoutSink.cpp:259-448 | which one, in numbers: waits more than 5 ms early, sent up to 50 ms late, dropped later; before the anchor dropped between 50 ms and a second behind the clock, otherwise sent as due now |
| MpegTsPlayoutSink.LateExactly | src/playout_sinks/mpegts/MpegTSPlayoutSink.cpp:436-439 | a frame is late exactly when dropped or sampled after its target time |
| MpegTsPlayoutSink.CountsExactly | src/playout_sinks/mpegts/MpegTSPlayoutSink.cpp:377-448 | the sent and late counters count each such frame once |
| MpegTsPlayoutSink.OneCourse | src/playout_sinks/mpegts/MpegTSPlayoutSink.cpp:273-453 | frames and passes determine every outcome of a run |
| MpegTsPlayoutSink.MpegTSPlayoutSink.NoDrift | src/playout_sinks/mpegts/MpegTSPlayoutSink.cpp:359-428 | any two sent frames' clock spacing is within 55 ms of their PTS spacing |
| MpegTsPlayoutSink.MpegTSPlayoutSink.SentInOrder | src/playout_sinks/mpegts/MpegTSPlayoutSink.cpp:430-448 | frames pushed in PTS order are settled in PTS order |
| MpegTsPlayoutSink.TicksKeepSpacing | src/playout_sinks/mpegts/MpegTSPlayoutSink.cpp:441-442 | the 90 kHz PTS keep the order and the spacing of frames within a tick, or two across zero |
| PlayoutControl.LedgersHold | src/runtime/PlayoutControlStateMachine.cpp:33-258 | every reachable state: never Ready or Stopping; transitions = state changes + illegal attempts; in minus out of each state is [current] - [Idle]; Playing to Paused, Paused to Playing, Stopping to Idle counts equal the pause, resume, stop sample counts; recoveries; violations = samples over their thresholds |
| PlayoutControl.CountersTally | src/runtime/PlayoutControlStateMachine.cpp:198-258 | over a run timeouts, overflows and refused commands are each counted exactly once |
| PlayoutControl.OnBufferDepthMoves | src/runtime/PlayoutControlStateMachine.cpp:198-217 | exactly when a depth report moves the state, where to, and the transitions recorded; otherwise nothing changes |
| PlayoutControl.OnBackPressureMoves | src/runtime/PlayoutControlStateMachine.cpp:219-246 | an underrun leaves Playing for Buffering, clearing leaves Buffering for Playing, an overrun is counted, all else changes nothing |
| PlayoutControl.OnExternalEventMoves | src/runtime/PlayoutControlStateMachine.cpp:248-259 | a timeout leads to Error from every state, an overflow is only counted |
| PlayoutControl.BeginSessionMoves | src/runtime/PlayoutControlStateMachine.cpp:33-50 | a new session is accepted in Idle only and leads to Buffering; how a refusal is recorded |
| PlayoutControl.PauseMoves | src/runtime/PlayoutControlStateMachine.cpp:52-81 | a new pause is accepted in Playing only and leads to Paused; how a refusal is recorded |
| PlayoutControl.ResumeMoves | src/runtime/PlayoutControlStateMachine.cpp:83-109 | a new resume is accepted in Paused only and leads to Playing; how a refusal is recorded |
| PlayoutControl.SeekMoves | src/runtime/PlayoutControlStateMachine.cpp:111-147 | a new seek is late below the position, accepted in Playing and Paused, passes Buffering and Ready to Playing; how a refusal is recorded |
| PlayoutControl.StopMoves | src/runtime/PlayoutControlStateMachine.cpp:149-176 | a new stop is accepted everywhere but in Idle and passes Stopping to Idle; how a refusal is recorded |
| PlayoutControl.RecoverMoves | src/runtime/PlayoutControlStateMachine.cpp:178-196 | a new recover is accepted in Error only and leads to Buffering; how a refusal is recorded |
| PlayoutControl.CommandSamples | src/runtime/PlayoutControlStateMachine.cpp:52-176 | what each accepted command measures, in ms, and the limits of 33, 50, 250 and 500 ms above which it counts as a violation |
| PlayoutControl.ErrorToBuffering | src/runtime/PlayoutControlStateMachine.cpp:371-376 | in every run the recorded transitions from Error to Buffering are the recoveries plus the sessions begun and seeks refused in Error |
| PlayoutControl.ErrorToBufferingRefused | src/runtime/PlayoutControlStateMachine.cpp:33-50 | a run that records one without any recovery |
| PlayoutControl.RefusedIsHarmless | src/runtime/PlayoutControlStateMachine.cpp:371-376 | a refused command changes neither state, samples nor position and is counted once, as a late seek or as an illegal attempt |
| PlayoutControl.ErrorExactly | src/runtime/PlayoutControlStateMachine.cpp:33-258 | the state becomes or stays Error exactly by a timeout, or in Error by anything but a new Stop or Recover |
| PlayoutControl.LatePauseOnlyCounts | src/runtime/PlayoutControlStateMachine.cpp:69-80 | a pause over its latency threshold is counted and still pauses |
| PlayoutControl.LatePauseRun | src/runtime/PlayoutControlStateMachine.cpp:33-81 | a run with a pause 100 ms late ends in Paused with one violation |
| PlayoutControl.SecondCopy | src/runtime/PlayoutControlStateMachine.cpp:356-369 | the second copy of a command is a duplicate if and only if it has an id, and is then acknowledged without effect, whatever became of the first |
| PlayoutControl.RefusedThenAcknowledged | src/runtime/PlayoutControlStateMachine.cpp:52-67 | a pause refused in Idle and sent again is acknowledged, and nothing happens |
| PlayoutControl.PositionNeverDecreases | src/runtime/PlayoutControlStateMachine.cpp:111-147 | `current_pts_us_` of a run is at least that of each of its prefixes |
| PlayoutControl.ApplyPosition | src/runtime/PlayoutControlStateMachine.cpp:122-145 | only an accepted new seek moves the position, and to its target |
| PlayoutControl.DuplicatesErased | src/runtime/PlayoutControlStateMachine.cpp:356-369 | taking every command with an already seen non-empty id, of any kind, out of a run leaves the final state, counters, samples and position the same |
| PlayoutControl.RepeatsIsDuplicate | src/runtime/PlayoutControlStateMachine.cpp:356-369 | a command is treated as a duplicate if and only if an earlier command of any kind carried its non-empty id |
| PlayoutControlStateMachine.PlayoutControlStateMachine.BeginSession | src/runtime/PlayoutControlStateMachine.cpp:33-50 | the object's state stays that of the run so far; true if and only if accepted |
| PlayoutControlStateMachine.PlayoutControlStateMachine.Pause | src/runtime/PlayoutControlStateMachine.cpp:52-81 | the same, for pause |
| PlayoutControlStateMachine.PlayoutControlStateMachine.Resume | src/runtime/PlayoutControlStateMachine.cpp:83-109 | the same, for resume |
| PlayoutControlStateMachine.PlayoutControlStateMachine.Seek | src/runtime/PlayoutControlStateMachine.cpp:111-147 | the same, for seek |
| PlayoutControlStateMachine.PlayoutControlStateMachine.Stop | src/runtime/PlayoutControlStateMachine.cpp:149-176 | the same, for stop |
| PlayoutControlStateMachine.PlayoutControlStateMachine.Recover | src/runtime/PlayoutControlStateMachine.cpp:178-196 | the same, for recover |
| PlayoutControlStateMachine.PlayoutControlStateMachine.OnBufferDepth | src/runtime/PlayoutControlStateMachine.cpp:198-217 | the same, for a depth report |
| PlayoutControlStateMachine.PlayoutControlStateMachine.OnBackPressureEvent | src/runtime/PlayoutControlStateMachine.cpp:219-236 | the same, for a back-pressure event |
| PlayoutControlStateMachine.PlayoutControlStateMachine.OnBackPressureCleared | src/runtime/PlayoutControlStateMachine.cpp:238-246 | the same, when back-pressure clears |
| PlayoutControlStateMachine.PlayoutControlStateMachine.OnExternalTimeout | src/runtime/PlayoutControlStateMachine.cpp:248-253 | the same, for a timeout |
| PlayoutControlStateMachine.PlayoutControlStateMachine.OnQueueOverflow | src/runtime/PlayoutControlStateMachine.cpp:255-259 | the same, for an overflow |
| PlayoutControlStateMachine.PlayoutControlStateMachine.LedgersBalance | src/runtime/PlayoutControlStateMachine.cpp:33-258 | the ledgers hold of the object between any two calls |
| Percentile.SelectedIsOrderStatistic | src/runtime/PlayoutControlStateMachine.cpp:344-351 | whatever arrangement a selection leaves, position n holds the n-th smallest sample |
| Percentile.PercentileBySelection | src/runtime/PlayoutControlStateMachine.cpp:331-354 | two selections, the second on what the first left, give the percentile of the sorted samples, for every vector and every percentile in [0, 1]; the orchestration loop's `ComputePercentile` is the same algorithm |
| Percentile.PercentileBySorting | src/telemetry/MetricsExporter.cpp:373-391 | so does the sorted copy: the implementations agree |
| Percentile.PercentileInRange | src/runtime/OrchestrationLoop.cpp:197-216 | the result lies between two samples |
| Percentile.PercentileInterpolates | src/runtime/OrchestrationLoop.cpp:204-215 | at rank k + f the value is 1 - f parts of the k-th smallest sample and f parts of the next |
| Percentile.PercentileMonotone | src/runtime/OrchestrationLoop.cpp:197-216 | it grows with the percentile |
| Percentile.PercentileEnds | src/runtime/OrchestrationLoop.cpp:197-216 | at 0 and 1 it is a lower and an upper bound of all samples |

## Left out

- FFmpeg, SDL, gRPC, sockets, HTTP, logging and thread creation: foreign calls or I/O. The encoder is an arbitrary
  packet source, the output callback an append-only log, thread functions are step machines or loops over scripted clocks.
- Codec and header preparation inside encodeFrame is one flag, and the packets' payload is not modelled.
- PCR parsing, PCR cadence and stall warnings, and the `continuity_test_*` diagnostics: they only log.
- TsStream.ChunkingInvisible: streams without a sync byte at every multiple of 188, and chunks over 1 MiB - 187 bytes, are
  modelled by `Process` and `MakeRoom` but their output does depend on chunking, because resynchronisation and the overflow
  drop start from the chunk boundaries.
- EncoderPipeline.EncoderPipeline.Close: the encoder's answers are a finite script; one without a last "no more" stands for a
  flush loop that never ends. Packet times and stream bytes are unrelated inputs, since the muxer is FFmpeg's.
- ExporterThreads.AsyncRefinesSync: one submitter and one controller only, since the event queue's push is a single-producer
  algorithm and Start and Stop are not meant to race.
- MetricsExporter.MetricsExporter.Stop: calls run one at a time here, so the worker's remaining work is done inside Stop;
  `ExporterThreads` has the interleavings.
- FrameRingBuffer.FrameRingBuffer.Clear: only while both threads rest, as its comment demands.
- SpscRing.StepRefines: the weak memory model, and the audio ring, which is the same algorithm.
- FrameRenderer.EveryRun: waiting and spinning for the deadline, render-time and frame-rate averages.
- FrameProducer.FrameProducer.ProduceStubFrame: pixel data, pacing waits, and the real decode path.
- OrchestrationLoop.OrchestrationLoop.Run: a finite script of clock samples (any length) and callback results by tick index; the
  starvation flag and latency samples are left out. Back-pressure reports arrive before a tick, not while it is handled; the
  lock makes any other moment equal to one of these, up to the tick number a report records.
- MpegTsPlayoutSink.MpegTSPlayoutSink.RunPass: client connections, encoding and the output queue's contents; the source counts
  a frame as sent whether or not a client is connected. Frames arrive at the
  start of a pass; `SpscRing.PeekedIsNext` is why a later arrival cannot change the head.
- MpegTsPlayoutSink.MpegTSPlayoutSink.SentInOrder: needs the producer to push increasing PTS, which the sink does not check.
- PlayoutControlStateMachine.PlayoutControlStateMachine.Seek: `transitions_`, a map from pairs to counts, is a multiset; event times
  and `consistency_failure_total_`, which nothing uses, are left out; so is assembling the metrics snapshot. The position
  and the recover counter are written a few statements earlier than in the source, inside the same lock.
- Percentile.PercentileBySelection: samples are reals; rounding, infinities and NaN are not modelled. `std::nth_element` and
  `std::sort` are methods known only by what the C++ standard promises of them.
- Integer width: int64 overflow of timestamps and counters, and rounding of doubles.
- Preview-to-live PTS alignment: the stored last PTS already includes the offset, so exact continuity is not what it computes.
- `PlayoutService` and `PlayoutController` pass calls through, `PlayoutEngine` starts, waits for and stops the threads of
  the other parts, `MpegTSEncoder` and `TSMuxer` are placeholders for `EncoderPipeline`, and `TsOutputSink` writes to a socket.

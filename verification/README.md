# ReacJack: a verified model

ReacJack takes Roland REAC audio from Ethernet packets, buffers it in a
single-writer/single-reader ring, and plays it in audio callbacks that run on a
different clock. This project models that path in Dafny, from the bytes of a
packet to the samples and timestamps a client sees, and proves what the path
keeps over every input, every run and every interleaving.

`dafny verify dfyconfig.toml` checks all of it.

## How it is organised

| file | what it models |
|---|---|
| `Audio.dfy` | frames, flat buffers, the cells of a ring; `Sample(log, pos, ch)` is the one specification of every read |
| `SharedRing.dfy` | `src/shared_audio.c` as a class over an array, with a ghost log of every frame written |
| `RingProtocol.dfy`, `RingCalls.dfy`, `RingProgress.dfy` | the same ring as two processes, one step per position load, position store or copied sample; what one whole call does; that no call waits |
| `Regulation.dfy`, `Band.dfy`, `Drift.dfy` | the drift regulator: one read, unbounded runs, and runs on the ring object |
| `ClockProtocol.dfy` | the seqlock that carries (host time, sample position) to the driver, with the daemon and the host clock around it |
| `Timeline.dfy`, `ClockSlaving.dfy`, `Driver.dfy` | the CoreAudio device clock: one call, whole IO sessions, and the plug-in object |
| `Packet.dfy`, `Decoder.dfy`, `ChannelStorage.dfy` | parser, decoder loops, encoder, channel storage |
| `LossCounter.dfy` | the 16-bit packet counter |
| `Frontends.dfy` | one captured frame in the daemon, the PipeWire source and the JACK client, and all three fed with the same capture |
| `CaptureRuns.dfy` | the same by the bytes of the captured frames: what each frontend takes, notes, stores and refuses |
| `FrontendLosses.dfy` | what received and lost come to in the JACK client and the PipeWire source |
| `DaemonObject.dfy`, `JackObject.dfy`, `PipeWireObject.dfy`, `PipeWireRing.dfy` | the three programs as objects that refine those steps |
| `FrameQueue.dfy` | the three read algorithms against one bounded queue |
| `Tone.dfy` | the pacing of the synthetic signal |

Conventions. Positions, counters and `clock_seq` are unbounded (64 bits do not
wrap in practice); 32-bit and 16-bit casts, the unsigned subtractions of the
device clock and the products of the pacing loop are written out. `Float64` and
`float` are `real`, casts to integers are floors; shifts and ors of disjoint
bytes are sums. Interleaving is sequentially consistent. Two functions that
code computes with `*` and `%` (`Slot`, `Cell`) are defined by recursion, and
`SlotValue` and `CellIsMod` give the computed forms.

## What the code does not keep

- Pacing of the tone: the product `elapsed_ns * 48000` wraps after about 4.4
  days. `PacedIffItFits` gives the exact condition; `GeneratorStalls` shows
  that no run ever sends more than 18446744073 frames, so that no run is paced
  once twelve more are due (`NeverPacedAgain`); `StallExample` is an uptime of
  five days.
- Loss accounting is exact if and only if no two consecutive noted packets are
  more than 32768 numbers apart (`LossIsExactIffGapsAreShort`); `Undercount` is
  what longer gaps hide (`LossAndUndercountIsSpan`), and `LongGapExample` a gap
  that hides 32767 packets.
- The JACK client restarts its count of received packets from the frames in its
  FIFO whenever a period finds too few of them. `JackLossIsExactIff` gives the
  value and the exact condition for every run, long gaps included;
  `JackMiscountExample` is a run that counts one packet as twelve.
- The PipeWire source neither notes nor counts a packet that finds no room, so
  it counts its own overruns as losses of the wire.
  `PipeWireLossIncludesOverruns` gives the value and the exact condition;
  `PipeWireOverrunExample` is a run in which every packet arrives and one is
  counted as lost.
- Sample time is monotone within an IO session. The first StartIO after a stop
  returns to zero under the same seed, which keeps it monotone if and only if
  every call of the session came less than one period after its start
  (`RestartIsMonotoneIffSessionWasShort`); `RestartGoesBack` is a session that
  did not.
- The header comment of the regulated read says that below the tolerance up to
  eight output frames are synthesized by duplicating the last real frame. The
  code does so if and only if the ring is not empty and more frames are
  requested than inserted (`CopiesLastFrameIff`); otherwise those frames are
  silent, even with plenty buffered (`NothingToCopy`). Where the inner read
  underruns, its silence stands between the last real frame and the copies
  (`CopiesAfterSilence`), so the output repeats the last real frame from the
  first missing one on if and only if the inner read asks for at least one
  frame and for no more than the fill (`RepeatsLastFrameIff`).
- The regulator's limit of eight frames per cycle is sharp on both sides
  (`FasterWriterOverflows`, `SlowerWriterStarves`).

## Model

| member | source | states |
|---|---|---|
| `SharedRing.Ring.constructor` | src/shared_audio.c:64-97 | a new ring is empty and silent with all counters zero |
| `SharedRing.Ring.WritableFrames` | src/shared_audio.c:152-157 | through the 32-bit casts, exactly the free frames |
| `SharedRing.Ring.ReadableFrames` | src/shared_audio.c:159-163 | through the 32-bit cast, exactly the fill |
| `SharedRing.Ring.Write` | src/shared_audio.c:165-189 | all or nothing: accepted exactly when it fits, then the log grows by the transposed input, sample by sample, and every unread frame is still in its cell; refused, it changes only the overrun count |
| `SharedRing.Ring.CopyChannels` | src/shared_audio.c:178-185 | the copy split at the wrap point puts each sample in the cell of its absolute position and disturbs no unread frame |
| `SharedRing.Ring.ReadInterleaved` | src/shared_audio.c:191-219 | every output sample is the log's sample at its absolute position, silence past the end and past the ring's channels; position and underruns move accordingly |
| `SharedRing.Ring.Read` | src/shared_audio.c:331-358 | the split-copy planar read against the same function of the log, nothing past the block touched |
| `SharedRing.Ring.SeekToFill` | src/shared_audio.c:221-231 | the fill becomes the smaller of itself and the target, read position only moves forward, one reset counted |
| `SharedRing.Ring.ReadRegulated` | src/shared_audio.c:233-278 | branch by branch: in the band the log from the read position on, above it from behind at most eight dropped frames, below it the log and then at most eight copies of the last frame taken, or silence when none was; with the position and the counters |
| `SharedRing.FillTail` | src/shared_audio.c:263-272 | the tail holds copies of the last real frame, or silence when there is none, and nothing before it changes |
| `SharedRing.Ring.PublishClock` | src/shared_audio.c:291-302 | sequence number up by two, both words stored |
| `SharedRing.Ring.GetClock` | src/shared_audio.c:304-329 | without a concurrent publisher, success exactly for a nonzero even number, then both words |
| `Audio.SplitCellIsCell` | src/shared_audio.c:175-184 | the two-part copy and the per-frame modulo visit the same cells |
| `Audio.BlockAvoids` | src/shared_audio.c:165-189 | a block that fits never covers the cell of an unread frame |
| `RingProtocol.ExecInv` | src/shared_audio.c:165-278 | every run of the two processes keeps the shared memory, both processes' locals and the reader's ledger consistent |
| `RingProtocol.AnyInterleavingIsFaithful` | src/shared_audio.c:165-278 | in every interleaving, read_pos <= write_pos <= read_pos + capacity, and the output is the written stream in order, in all channels of the width each call asked for, with gaps only at drops and seeks |
| `RingProtocol.BlocksMatchCalls` | src/shared_audio.c:191-278 | calls and delivered blocks agree one by one in width, and copies repeat the last frame of the block before them |
| `RingCalls.CallServes` | src/shared_audio.c:191-278 | every reader call, whatever the writer does meanwhile: drop, block, silence, copies, seek target and counters are those of positions that write_pos had during the call, and a short read took all there was when it looked |
| `RingCalls.CallAlone` | src/shared_audio.c:191-278 | with the writer at rest a read takes the fill or what it was asked for, whichever is less, the regulator corrects by that fill, and a seek leaves the fill or its target |
| `RingCalls.WriteAnswers` | src/shared_audio.c:165-189 | every write, whatever the reader does meanwhile: all of it is appended if there was room behind a position that read_pos had during the call, and otherwise only an overrun is counted |
| `RingProtocol.InFlightCellsDisjoint` | src/shared_audio.c:165-219 | a cell being written is never a cell being read |
| `RingProtocol.FramesConserved` | src/shared_audio.c:187-278 | in every reachable state written = returned + dropped + skipped + buffered, and requested = returned + inserted + silent + still owed by the call under way |
| `RingProtocol.PublishKeeps` | src/shared_audio.c:187-188 | storing write_pos exposes exactly the copied frames, whatever the reader is doing |
| `RingProtocol.CopyInKeeps` | src/shared_audio.c:178-185 | one copied sample disturbs no published frame, no sample of its own block and nothing the reader holds |
| `RingProtocol.CopyOutKeeps` | src/shared_audio.c:205-211 | one sample read out is the log's sample, although the writer moves meanwhile |
| `RingProtocol.DeliverKeeps` | src/shared_audio.c:213-218 | storing read_pos delivers exactly the frames it passes |
| `RingProtocol.DropKeeps` | src/shared_audio.c:247-252 | the regulator's drop moves read_pos forward only, within what is written |
| `RingProtocol.SeekKeeps` | src/shared_audio.c:221-231 | and so does the seek |
| `RingProtocol.TailKeeps` | src/shared_audio.c:263-272 | inserted frames repeat the frame just before read_pos, or are silent |
| `RingProgress.ReaderNeverBlocks` | src/shared_audio.h:74-76 | in every reachable state a running reader call has a step that lowers its bound, and no writer step changes that bound |
| `RingProgress.ReaderCallBound` | src/shared_audio.c:191-278 | the bound a call starts with: one step per sample plus a constant |
| `RingProgress.WriterNeverBlocks` | src/shared_audio.c:165-189 | the same for a write, from one step per sample plus four |
| `Regulation.Correct` | src/shared_audio.c:244-260 | frames are dropped exactly above target + tolerance and inserted exactly below target - tolerance, at most eight, never past the target, and short of it only at the limits |
| `Regulation.CopiesLastFrameIff` | src/shared_audio.h:90-96 | the synthesized frames duplicate the last real one, whatever was written, if and only if the fill is not zero and insert < frames |
| `Regulation.NothingToCopy` | src/shared_audio.c:254-275 | fifty frames buffered and eight requested: eight synthesized frames, all silent |
| `Regulation.RepeatsLastFrameIff` | src/shared_audio.c:254-275 | in the insert branch the output repeats the last real frame from the first missing one on, whatever was written, if and only if 0 < frames - insert <= fill |
| `Regulation.CopiesAfterSilence` | src/shared_audio.c:254-275 | one frame buffered and twenty requested: a real frame, eleven silent ones, eight copies |
| `Band.CeilingInvariant` | src/shared_audio.c:244-252 | if no write exceeds its request by more than eight, the fill never exceeds the larger of its start and target + tolerance, and a ring with room for that never overruns |
| `Band.FloorInvariant` | src/shared_audio.c:254-275 | if no request exceeds its write by more than eight, and writes fit above target - tolerance, then for any writer, fast or bursty, the fill never falls below target - tolerance - largest request, and no underrun is counted |
| `Band.DistanceFalls` | src/shared_audio.c:244-277 | outside the band every cycle brings the fill at least one frame closer |
| `Band.Convergence` | src/shared_audio.c:244-277 | from any fill, an empty ring included, the band is reached within as many cycles as the fill is frames away, and never left |
| `Band.FasterWriterDiverges` | src/shared_audio.c:244-252 | more than eight frames per cycle too fast, and the fill grows every cycle until an overrun is counted |
| `Band.FasterWriterOverflows` | src/shared_audio.c:165-173 | which happens within as many cycles as the ring has room, plus one |
| `Band.SlowerWriterDrains` | src/shared_audio.c:254-275 | more than eight frames per cycle too slow, and the fill falls every cycle until an underrun is counted |
| `Band.SlowerWriterStarves` | src/shared_audio.c:254-275 | which happens within as many cycles as there are frames, plus one |
| `Band.DriverNeverStarves` | src/coreaudio/ReacJackDriver.c:38-45 | with the driver's constants and requests up to 2400 frames, writes at most eight frames short never lead to an underrun, from any fill |
| `Band.DriverNeverOverflows` | src/coreaudio/ReacJackDriver.c:38-45 | writes at most eight frames over the request never lead to an overrun, from any fill StartIO can leave |
| `Drift.DriftCycle` | tests/test_shared_audio.c:411-423 | one write and one regulated read move the ring's real fill and counters as the arithmetic of the band says |
| `Drift.DriftRun` | tests/test_shared_audio.c:385-462 | the simulated runs for every pattern and length: the ring's fill is the arithmetic's, a run that is fed counts no underrun and one that is drained counts no overrun |
| `ClockProtocol.ExecInv` | src/shared_audio.c:291-329 | every run of publisher and reader keeps the seqlock's invariant |
| `ClockProtocol.SuccessIsCurrent` | src/shared_audio.c:321-326 | at the last load of a success no publish is half stored and the pair is the newest |
| `ClockProtocol.ReturnsTheCurrentPublish` | src/shared_audio.c:304-329 | in every run, the pair returned is the newest publish at the instant of the last load |
| `ClockProtocol.ReadsAreLinearizable` | src/shared_audio.c:291-329 | each success returns both words of one publish, no older than those complete when the call began, and later successes never go back |
| `ClockProtocol.ObservationsAreOrdered` | src/reacjackd.c:231-238 | observed pairs are ordered in time and in position, and ahead of neither the ring nor the present |
| `ClockProtocol.ReadsTellTheTruth` | src/reacjackd.c:236-237 | every pair read is the host time and the write position of one instant after the publish before it |
| `ClockProtocol.UncontendedReadSucceeds` | src/shared_audio.c:310-326 | with an earlier publish and none being stored meanwhile, the attempt under way succeeds at its fourth load, whatever ticks, writes and preparations of the publisher come between |
| `ClockProtocol.IdlePublisherDoesNotOverlap` | src/shared_audio.c:291-302 | in particular when the publisher does not move |
| `ClockProtocol.StalledPublisherIsMissed` | src/shared_audio.c:310-328 | a publisher stopped in mid-update makes all sixteen attempts fail, so the call still returns |
| `Timeline.NeverBackwards` | src/coreaudio/ReacJackDriver.c:955-969 | the tick difference never wraps, the backwards clamp never fires, and the stamp is in the past by less than one period and one tick |
| `Timeline.StampEnvelope` | src/coreaudio/ReacJackDriver.c:955-970 | a sample time is a multiple of 8192, and after k rebases the host time gone by is within the rate clamp up to k + 1 ticks |
| `Timeline.StampKeeps` | src/coreaudio/ReacJackDriver.c:955-970 | a stamp keeps the session invariant |
| `Timeline.RebaseKeeps` | src/coreaudio/ReacJackDriver.c:934-937 | a change of rate keeps the timeline continuous and loses under one tick |
| `Timeline.ObserveKeeps` | src/coreaudio/ReacJackDriver.c:894-938 | any reading whatever keeps the session invariant and the last stamp |
| `Timeline.Observe` | src/coreaudio/ReacJackDriver.c:894-938 | the seed moves exactly when a reading at least 24000 frames past a valid reference gives a slope, clamped to one percent, more than 2 ppm away; the rate is then that slope and the timeline rebased at the last stamp; a first reading, or one that goes back, only becomes the reference; the last stamp stays |
| `Timeline.BeginIsGood` | src/coreaudio/ReacJackDriver.c:848-854 | a session starts in the invariant |
| `ClockSlaving.SessionIsSafe` | src/coreaudio/ReacJackDriver.c:894-977 | over a whole session with any readings: host and sample times and seed never decrease, every stamp is recent, a whole number of periods, and inside the cumulative rate envelope, the tick difference never wraps and the backwards clamp never fires |
| `ClockSlaving.OriginUntilLate` | src/coreaudio/ReacJackDriver.c:955-970 | a session's sample time is still zero if and only if every call so far came less than one period, at the rate it used, after the start |
| `ClockSlaving.RestartIsMonotoneIffSessionWasShort` | src/coreaudio/ReacJackDriver.c:848-854 | across a restart timestamps stay monotone if and only if the session was that short; the seed stays |
| `ClockSlaving.RestartGoesBack` | src/coreaudio/ReacJackDriver.c:848-854 | one call a period after the start, and the restart goes back by 8192 samples under the same seed |
| `ClockSlaving.NominalUntilFarEnough` | src/coreaudio/ReacJackDriver.c:914-917 | while no reading of a session is 24000 frames or more past an earlier one, the seed stays that of the start and the rate the nominal one |
| `ClockSlaving.SlopeError` | src/coreaudio/ReacJackDriver.c:914-920 | two points within J ticks of a line give its slope up to 2J over the window |
| `ClockSlaving.EstimateError` | src/coreaudio/ReacJackDriver.c:914-927 | clamping and the unsigned difference do not spoil that |
| `ClockSlaving.SlavedRateIsAccurate` | src/coreaudio/ReacJackDriver.c:914-937 | after every usable observation the slaved rate is within 2J over the window plus 2 ppm of the true rate |
| `ClockSlaving.QuietStep` | src/coreaudio/ReacJackDriver.c:929-937 | over a long enough window an estimate in use is never replaced |
| `ClockSlaving.SeedSettles` | src/coreaudio/ReacJackDriver.c:929-937 | once 4J over the window is below 2 ppm of the slowest rate, the rest of the session changes the seed at most once |
| `ClockSlaving.ReferenceWasRead` | src/coreaudio/ReacJackDriver.c:906-912 | a valid reference is one of the pairs read in this session |
| `ClockSlaving.RestartBranchNeverTaken` | src/coreaudio/ReacJackDriver.c:906-920 | for every interleaving of daemon and driver on one ring, no observation is behind the reference in either word, so the difference never wraps, and the reference is never replaced |
| `ClockSlaving.SessionFollowsDaemon` | src/coreaudio/ReacJackDriver.c:894-938 | for every interleaving with a daemon whose publishes lie within J ticks of a line, each call of a session that reads over a window of at least 24000 frames leaves the slaved rate within 2J over the window plus 2 ppm |
| `ClockSlaving.SessionSettles` | src/coreaudio/ReacJackDriver.c:929-937 | and from the first reading with 4J over the window below 2 ppm of the slowest rate, the rest of the session changes the seed at most once |
| `Driver.Device.StartIO` | src/coreaudio/ReacJackDriver.c:834-863 | the first client begins a session and seeks the ring to the target fill, others only count, the last count is refused |
| `Driver.Device.StopIO` | src/coreaudio/ReacJackDriver.c:865-887 | refused when nothing runs; the last client closes the ring and leaves the timeline |
| `Driver.Device.UpdateClockEstimate` | src/coreaudio/ReacJackDriver.c:894-938 | the fields move as Observe does on what the ring's seqlock holds |
| `Driver.Device.GetZeroTimeStamp` | src/coreaudio/ReacJackDriver.c:940-977 | the fields move as Stamp after Observe, and the call returns the stored stamp and seed |
| `Driver.Device.ReadInput` | src/coreaudio/ReacJackDriver.c:1032-1045 | the same three branches into forty channels for a target of 4800 and a tolerance of 2400, or silence without a ring |
| `Packet.AcceptedExactly` | src/reac_decode.c:55-84 | accepted if and only if the length is 52 + 36c for an even c in 2..40 with the right EtherType and end marker, and then with that c, that counter and that payload |
| `Packet.RejectedExactly` | src/reac_decode.c:55-78 | each rejection if and only if its own condition on the bytes holds and none before it |
| `Packet.PairBytes` | src/reac_decode.c:111-117 | the layout on the wire: the first sample is the signed 24-bit value of bytes 3, 0, 1 and the second of bytes 4, 5, 2, lowest first |
| `Packet.EncodedBytes` | tests/test_reac_decode.c:30-42 | and the encoder puts them there |
| `Packet.SampleOffset` | src/reac_decode.c:108-122 | channels 2p and 2p + 1 of frame f come from the six bytes at 3 * (f * channels + 2p) |
| `Packet.PairRoundTrip` | tests/test_reac_decode.c:30-42 | decoding an encoded pair returns it, for all signed 24-bit values |
| `Packet.BytesRoundTrip` | src/reac_decode.c:111-117 | encoding a decoded pair returns its six bytes, so the layout is a bijection |
| `Packet.FramesRoundTrip` | tests/test_reac_decode.c:58-66 | decoding an encoded matrix returns it |
| `Packet.PayloadBytesRoundTrip` | src/reac_decode.c:108-122 | encoding a decoded payload returns its bytes |
| `Packet.DecodeConcat` | src/reac_decode.c:108-122 | decoding commutes with concatenation at frame boundaries |
| `Packet.PayloadBytesSlot` | src/reac_decode.c:42-45 | the payload size is the offset just past the last frame |
| `Packet.PacketRoundTrip` | tests/test_reac_decode.c:44-70 | building, parsing and decoding returns counter, channel count and every sample, for any addresses and header |
| `Decoder.DecodePair` | src/reac_decode.c:111-119 | each float, times 2^23, is the signed 24-bit value of its three bytes |
| `Decoder.DecodeToChannels` | src/reac_decode.c:87-125 | either channels 2p and 2p + 1 of every frame f hold the samples of the six bytes at 3 * (f * channels + 2p), or nothing is touched and the status is the first failed check |
| `Decoder.ExpectedExactly` | src/reac_decode.c:96-107 | each status if and only if its own condition holds and none before it |
| `Decoder.Validate` | src/reac_decode.c:96-107 | the checks and their order |
| `Decoder.DecodeAll` | src/reac_decode.c:109-122 | the nested loops write the whole matrix and the input pointer ends exactly at the end of the payload |
| `Decoder.PointerClosedForm` | src/reac_decode.c:109-122 | the moving pointer is 3 * (frame * channels + ch) |
| `Decoder.AcceptedPacketsDecode` | src/reacjackd.c:224-229 | a packet the parser accepts is never refused by the decoder |
| `LossCounter.StepLoss` | src/reacjackd.c:51-63 | one step counts the numbers it skipped, less what the counter hides of them |
| `LossCounter.HiddenIsNothingIff` | src/reacjackd.c:54-57 | a step hides nothing exactly for differences up to 32768 |
| `LossCounter.LossAndUndercountIsSpan` | src/reacjackd.c:51-63 | through any number of wraparounds, for every run, received + lost + hidden is the span of true numbers |
| `LossCounter.UndercountIsNothingIff` | src/reacjackd.c:51-63 | a run hides nothing if and only if no difference exceeds 32768 |
| `LossCounter.LossIsExactIffGapsAreShort` | src/reacjackd.c:51-63 | through any number of wraparounds received + lost is at most the span of true numbers, and equal if and only if no difference exceeds 32768 |
| `LossCounter.LongGapExample` | src/reacjackd.c:54-57 | packets 0 and 32769: received + lost is 3, the span 32770 |
| `Frontends.ExecInv` | src/reacjackd.c:178-241 | every run of the three frontends on the same capture, the daemon with a configured or a detected channel count, the JACK client new or after its reset, and readers at any pace, keeps all books and the agreement of the streams |
| `Frontends.ResetStartsAnew` | src/reacjack.c:787-797 | after any run the reset leaves the JACK client as one that may start, with the channel count it had |
| `CaptureRuns.RunsTakeExactly` | src/reacjackd.c:205-241 | over every run each frontend takes exactly the captured REAC frames of its channel count, configured or that of the first one, notes their counters in order, counts exactly the frames of another EtherType as not REAC, stores all it took unless it refused one, and refuses none while everything taken would fit |
| `CaptureRuns.StreamsAgreeWithinRoom` | src/reacjack.c:177-190 | within that room the daemon's and the PipeWire ring's frames, and what JACK played and holds, are all the samples of the captured frames |
| `CaptureRuns.DaemonByBytes` | src/reacjackd.c:205-241 | one frame by its bytes: counted, stored, or dropped exactly when twelve frames do not fit into 48000 with what is unread |
| `CaptureRuns.PipeWireByBytes` | src/reacjack-pw.c:302-334 | the same for the PipeWire source and 96000 frames |
| `CaptureRuns.JackByBytes` | src/reacjack.c:537-575 | the same for the JACK client and the room of its byte FIFO |
| `Frontends.DaemonAccounting` | src/reacjackd.c:205-241 | captured = received + non-REAC + malformed, overruns = dropped packets, write_pos and clock_seq are 12 and 2 times the stored packets |
| `Frontends.ChannelsFixed` | src/reacjackd.c:216-222 | the channel count never changes once the ring exists |
| `Frontends.DaemonLossIsExact` | src/reacjackd.c:240-241 | over a whole capture run received + lost is the span of true numbers if and only if the gaps are short |
| `Frontends.PipeWireKeepsBooks` | src/reacjack-pw.c:302-334 | captured = received + non-REAC + malformed + overruns, and 12 frames in the ring per received packet |
| `Frontends.PipeWireLossIsExact` | src/reacjack-pw.c:333-334 | the same for the packets the PipeWire source noted |
| `FrontendLosses.PipeWireLossIncludesOverruns` | src/reacjack-pw.c:328-334 | over the true numbers of all arrived packets, lost is those that never arrived plus those refused for lack of room, less what noted gaps hide; right about the wire if and only if as many were refused as hidden, with short gaps if and only if none was refused |
| `FrontendLosses.PipeWireOverrunExample` | src/reacjack-pw.c:328-334 | 8002 consecutive packets arrive, one is refused, and one is counted as lost |
| `Frontends.JackStepBooks` | src/reacjack.c:537-575 | captured = noted + non-REAC + malformed, and every accepted packet is noted and counted |
| `Frontends.JackProcessBooks` | src/reacjack.c:615-621 | a short read restarts the count of received packets from the frames found |
| `FrontendLosses.JackLossIsExactIff` | src/reacjack.c:159-175 | received is the frames found at the last short read plus the packets noted since; in every run received + lost is the span of true numbers if and only if that read found as many too many as the gaps hide; without a short read, if and only if the gaps are short |
| `FrontendLosses.ShortReadMiscounts` | src/reacjack.c:615-621 | after any first packet, a period of more than twelve frames makes it count as twelve |
| `FrontendLosses.JackMiscountExample` | src/reacjack.c:615-621 | a captured packet and a period of 128 frames: received + lost is 12 where the wire carried 1 |
| `Frontends.JackStepKeeps` | src/reacjack.c:537-575 | all-or-nothing byte writes keep the FIFO frame-aligned and the decoded stream in step |
| `Frontends.JackProcessKeeps` | src/reacjack.c:594-651 | playing a block of any size keeps the FIFO frame-aligned and splits the decoded stream there |
| `Frontends.PlaysExactlyWhen` | src/reacjack.c:599-651 | a period takes and plays its block exactly when it is there and fits the scratch buffer, and otherwise counts an underrun and leaves the FIFO alone |
| `Frontends.JackStreamIsDaemonStream` | src/reacjack.c:599-651 | buffer-then-decode equals decode-then-buffer: for equal channel counts, which both have when both detect them, what JACK played, followed by what its FIFO holds, is the daemon's stream, however playing was cut into blocks |
| `Frontends.PipeWireStreamIsDaemonStream` | src/reacjack-pw.c:302-334 | the PipeWire source buffers the daemon's stream |
| `DaemonObject.ReacDaemon.constructor` | src/reacjackd.c:175-180 | the daemon as it enters its capture loop: nothing counted, and an empty ring exactly when a channel count is configured |
| `DaemonObject.ReacDaemon.CapturePacket` | src/reacjackd.c:205-241 | the object, its ring and its counters move as DaemonStep, and the ring holds the floats of the decoded stream |
| `DaemonObject.ReacDaemon.Store` | src/reacjackd.c:224-238 | decoded, written and published with the new write position, or counted as dropped |
| `DaemonObject.ReacDaemon.NoteCounter` | src/reacjackd.c:51-63 | the counter fields move as Note |
| `DaemonObject.ReacDaemon.EnsureRing` | src/reacjackd.c:65-82 | an existing ring is kept; a new one is empty with the packet's channel count; failure changes nothing |
| `ChannelStorage.DecodePayload` | src/reacjackd.c:224-226 | the channel storage holds the transposed floats of the payload |
| `JackObject.JackClient.Reset` | src/reacjack.c:787-797 | FIFO and counters cleared, channel count, payload size and the count of other frames kept |
| `JackObject.JackClient.CapturePacket` | src/reacjack.c:537-575 | the client moves as JackStep: a REAC frame of its payload size is appended exactly when it fits into the FIFO, and a refusal counted exactly when it does not |
| `JackObject.JackClient.WritePayload` | src/reacjack.c:177-190 | all bytes or none, and a refusal is counted |
| `JackObject.JackClient.Process` | src/reacjack.c:581-651 | the block leaves the FIFO exactly when it is there and fits, and the ports then hold its decoded samples if all have buffers; otherwise they are silent and an underrun is counted; the client moves as JackProcess and keeps its invariant |
| `JackObject.JackClient.ShortRead` | src/reacjack.c:615-621 | silence, an underrun, and the count of received packets restarted from the frames found |
| `JackObject.SilenceOutputs` | src/reacjack.c:130-148 | every port that exists, up to the channel count or all of them, is silent, and all else keeps what it holds |
| `PipeWireRing.Ring.Write` | src/reacjack-pw.c:93-121 | accepted exactly when it fits, then the log grows by the rows of the input and unread frames stay in their cells |
| `PipeWireRing.Ring.WriteChunk` | src/reacjack-pw.c:104-117 | one contiguous chunk lands in the cells of its positions, makes progress, and spares unread frames |
| `PipeWireRing.Ring.Read` | src/reacjack-pw.c:123-152 | every output sample is the log's sample at its absolute position, with silence past the end |
| `PipeWireObject.InterleavePacket` | src/reacjack-pw.c:247-257 | the interleaved rows are the transposed channels |
| `PipeWireObject.ReacPw.CapturePacket` | src/reacjack-pw.c:302-334 | the object and its ring move as PipeWireStep, and the ring holds the floats of the decoded stream |
| `PipeWireObject.ReacPw.OnProcess` | src/reacjack-pw.c:340-366 | the number of frames served, their samples, and an underrun exactly when the ring had fewer |
| `FrameQueue.RunPlanar` | src/shared_audio.c:331-358 | any sequence of writes and split-copy reads gives the outputs of one bounded queue |
| `FrameQueue.RunInterleaved` | src/shared_audio.c:191-219 | so does any sequence of writes and per-frame-modulo reads, for a client of any width |
| `FrameQueue.RunPipeWire` | src/reacjack-pw.c:93-152 | so does any sequence on the PipeWire ring with its chunked loops |
| `FrameQueue.WidthOnlyResizes` | src/shared_audio.h:78-80 | a narrower or wider client gets the same samples in shared channels and silence in the others, over whole runs |
| `Tone.ElapsedIsExact` | src/reacjackd.c:269-270 | elapsed time is exact although the nanosecond difference wraps |
| `Tone.DueIsExactIffItFits` | src/reacjackd.c:271 | the due count is right if and only if the product fits in 64 bits |
| `Tone.PacingHolds` | src/reacjackd.c:266-291 | while it fits, every pass ends with sent <= due < sent + 12 |
| `Tone.PacedIffItFits` | src/reacjackd.c:266-291 | that holds for every run up to an uptime if and only if the product fits at that uptime |
| `Tone.GeneratorStalls` | src/reacjackd.c:271-273 | no run ever sends more than 18446744073 frames |
| `Tone.NeverPacedAgain` | src/reacjackd.c:266-291 | however often the loop passes, no run is paced once twelve more frames than that are due |
| `Tone.StallExample` | src/reacjackd.c:271-273 | five days in, the generator is behind by more than a packet |
| `Tone.SendPacket` | src/reacjackd.c:282-290 | one packet is written and published, or dropped, and either way accounted for |
| `Tone.CatchUp` | src/reacjackd.c:273-291 | the loop ends with less than a packet due and every frame sent accounted for |
| `Tone.RunTone` | src/reacjackd.c:266-291 | on every pass write_pos + 12 * dropped_packets = sent_frames, whatever the reader takes after each packet |

## Left out

- Shared-memory creation, mapping and header validation: operating-system calls; a ring starts zero-filled with valid geometry.
- CoreAudio property tables, object identifier checks, COM reference counting and the factory: constant lookups.
- pcap, raw sockets, the Linux packet ring, interface selection, signals and polling: a captured frame is a parameter.
- JACK and PipeWire themselves: the JACK byte FIFO is a sequence with a fixed capacity, and port buffers and stream buffers are parameters.
- Races between `copyData`, `process` and the reset inside one packet step, one period or the reset of the JACK client, and between the capture thread and `on_process` of the PipeWire source: each is one step here; the shared ring is the one modelled load by load.
- Memory orders weaker than sequential consistency.
- Rounding of floating-point numbers: rates, times and samples are exact reals, and the division by 2^23 is exact for 24-bit values anyway.
- `readable_frames` called by a third process: it takes two separate loads, and only the writer and the reader are modelled.
- The samples of the tone (sine and phase) and the daemon's packet count in tone mode: any block stands for them.
- Level metering, decibels, terminal output, `reacjackctl`, scripts and the makefile.
- Driver.Device.GetZeroTimeStamp: does not model a call before the first StartIO, when the slaved rate is still zero and the source divides by it.
- Failure to create the ring of a daemon with a configured channel count: it ends the program before the first packet.
- NULL checks of argument pointers, which references here cannot be; missing output buffers of the decoder and missing JACK ports are modelled.

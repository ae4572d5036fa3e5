/**
  What the three frontends do with one captured frame: the daemon and the
  PipeWire source decode and then buffer frames, the JACK client buffers bytes
  and decodes when it plays. The steps are functions of the state they update;
  logs hold the decoded 24-bit samples.
 */
module Frontends {
  import opened Audio
  import opened Packet
  import opened LossCounter

  const DAEMON_RING: nat := 48000
  const PW_RING: nat := 96000

  type Matrix = seq<seq<Int24>>

  // ----- src/reacjackd.c -----

  /** No channel count, to be detected from the first packet, or one the command line accepts. */
  predicate Configured(channels: nat) { channels == 0 || Supported(channels) }

  /** Daemon and ring, with every frame written and every counter noted; channels is 0 until the ring exists. */
  datatype Daemon = Daemon(channels: nat, log: Matrix, readPos: nat, received: nat, nonReac: nat, malformed: nat,
                           overruns: nat, droppedPackets: nat, clockSeq: nat, tracker: Tracker, noted: seq<nat>)

  function NewDaemon(channels: nat): Daemon { Daemon(channels, [], 0, 0, 0, 0, 0, 0, 0, FRESH, []) }

  function DaemonStep(s: Daemon, frame: seq<Byte>): Daemon {
    match ParsePacket(frame)
    case Rejected(status) =>
      if status == NotReac then s.(nonReac := s.nonReac + 1) else s.(malformed := s.malformed + 1)
    case Parsed(v) => DaemonAccept(s, v)
  }

  function DaemonAccept(s: Daemon, v: View): Daemon
    requires Supported(v.channels)
  {
    if s.channels != 0 && v.channels != s.channels then s.(malformed := s.malformed + 1)
    else
      var t := s.(channels := v.channels, received := s.received + 1, tracker := Note(s.tracker, v.counter),
                  noted := s.noted + [v.counter]);
      if |s.log| - s.readPos + FRAMES_PER_PACKET > DAEMON_RING then
        t.(overruns := s.overruns + 1, droppedPackets := s.droppedPackets + 1)
      else
        t.(log := s.log + DecodeFrames(v.payload, v.channels), clockSeq := s.clockSeq + 2)
  }

  // ----- src/reacjack-pw.c -----

  /**
    The PipeWire source; its channel count is configured. `arrived` has the
    counter of every packet of that many channels, and `notedAt` where in it
    the noted ones are.
   */
  datatype PipeWire = PipeWire(channels: nat, log: Matrix, readPos: nat, received: nat, nonReac: nat, malformed: nat,
                               overruns: nat, tracker: Tracker, noted: seq<nat>, arrived: seq<nat>, notedAt: seq<nat>)

  function NewPipeWire(channels: nat): PipeWire { PipeWire(channels, [], 0, 0, 0, 0, 0, FRESH, [], [], []) }

  function PipeWireStep(s: PipeWire, frame: seq<Byte>): PipeWire {
    match ParsePacket(frame)
    case Rejected(status) =>
      if status == NotReac then s.(nonReac := s.nonReac + 1) else s.(malformed := s.malformed + 1)
    case Parsed(v) => PipeWireAccept(s, v)
  }

  /** A packet that finds no room is neither noted nor counted as received. */
  function PipeWireAccept(s: PipeWire, v: View): PipeWire
    requires Supported(v.channels)
  {
    if v.channels != s.channels then s.(malformed := s.malformed + 1)
    else if |s.log| - s.readPos + FRAMES_PER_PACKET > PW_RING then
      s.(overruns := s.overruns + 1, arrived := s.arrived + [v.counter])
    else
      s.(log := s.log + DecodeFrames(v.payload, v.channels), tracker := Note(s.tracker, v.counter),
         noted := s.noted + [v.counter], received := s.received + 1,
         arrived := s.arrived + [v.counter], notedAt := s.notedAt + [|s.arrived|])
  }

  // ----- src/reacjack.c -----

  /**
    The JACK client, with every counter noted, every byte ever put into its FIFO
    and every frame ever played. A block is lost when it was read but a port
    gave no buffer or the decoder refused it. `shortAt` and `shortFrames` are
    the packets noted and the frames found when process last found too few
    bytes, and 0 before that.
   */
  datatype Jack = Jack(channels: nat, dataSize: nat, fifo: seq<Byte>, received: nat, nonReac: nat, malformed: nat,
                       netUnderrun: nat, jackUnderrun: nat, lostBlocks: nat, tracker: Tracker,
                       noted: seq<nat>, shortAt: nat, shortFrames: nat, written: seq<Byte>, played: Matrix)

  const NEW_JACK := Jack(0, 0, [], 0, 0, 0, 0, 0, 0, FRESH, [], 0, 0, [], [])

  /**
    The reset two seconds after the start: the FIFO and most counters are
    cleared, and what was recorded of the run begins anew; the channel count,
    the payload size and the count of other frames stay.
   */
  function AfterReset(s: Jack): Jack {
    s.(fifo := [], received := 0, malformed := 0, netUnderrun := 0, jackUnderrun := 0,
       tracker := s.tracker.(have := false, lost := 0),
       lostBlocks := 0, noted := [], shortAt := 0, shortFrames := 0, written := [], played := [])
  }

  /** A client as it is new or after the reset, with or without a channel count. */
  predicate Startable(s: Jack) {
    && Configured(s.channels) && s.dataSize == 36 * s.channels
    && s == AfterReset(s)
  }

  /** The packet step of copyData; `room` is what the byte FIFO can hold. */
  function JackStep(s: Jack, frame: seq<Byte>, room: nat): Jack {
    match ParsePacket(frame)
    case Rejected(status) =>
      if status == NotReac then s.(nonReac := s.nonReac + 1) else s.(malformed := s.malformed + 1)
    case Parsed(v) => JackAccept(s, v, room)
  }

  function JackAccept(s: Jack, v: View, room: nat): Jack {
    if s.dataSize != 0 && s.dataSize != |v.payload| then s.(malformed := s.malformed + 1)
    else
      var t := s.(dataSize := |v.payload|, channels := if s.dataSize == 0 then v.channels else s.channels,
                  received := s.received + 1, tracker := Note(s.tracker, v.counter), noted := s.noted + [v.counter]);
      if room - |s.fifo| < |v.payload| then t.(netUnderrun := s.netUnderrun + 1)
      else t.(fifo := s.fifo + v.payload, written := s.written + v.payload)
  }

  function BufferedFrames(bytes: nat, frameBytes: nat): nat
    requires frameBytes > 0
  {
    bytes / frameBytes
  }

  /** The read-and-decode part of process; `bytes` is the size of its scratch buffer. */
  function JackProcess(s: Jack, nframes: nat, bytes: nat, portsOk: bool): Jack {
    if s.channels == 0 || s.dataSize == 0 then s
    else
      var size := PayloadBytes(s.channels, nframes);
      if size > bytes then s.(jackUnderrun := s.jackUnderrun + 1)
      else if |s.fifo| < size then
        var found := BufferedFrames(|s.fifo|, BYTES_PER_SAMPLE * s.channels);
        s.(jackUnderrun := s.jackUnderrun + 1, received := found, shortFrames := found, shortAt := |s.noted|)
      else if !portsOk || !Supported(s.channels) then s.(fifo := s.fifo[size..], lostBlocks := s.lostBlocks + 1)
      else s.(fifo := s.fifo[size..], played := s.played + DecodeFrames(s.fifo[..size], s.channels))
  }

  /**
    A period plays exactly when its block is there and fits the scratch buffer;
    otherwise it counts an underrun and leaves the FIFO alone.
   */
  lemma PlaysExactlyWhen(s: Jack, nframes: nat, bytes: nat, portsOk: bool)
    requires Configured(s.channels) && (s.channels == 0 <==> s.dataSize == 0)
    ensures var t := JackProcess(s, nframes, bytes, portsOk); var size := s.channels * nframes * 3;
            && (s.channels == 0 ==> t == s)
            && (s.channels != 0 && size <= bytes && size <= |s.fifo| ==>
                  && t.fifo == s.fifo[size..] && t.jackUnderrun == s.jackUnderrun && t.received == s.received
                  && |t.played| == |s.played| + if portsOk then nframes else 0)
            && (s.channels != 0 && (size > bytes || size > |s.fifo|) ==>
                  t.fifo == s.fifo && t.jackUnderrun == s.jackUnderrun + 1 && t.played == s.played)
  {
    var size := s.channels * nframes * 3;
    assert size == PayloadBytes(s.channels, nframes);
    if s.channels != 0 && size <= |s.fifo| {
      PayloadBytesSlot(s.channels, nframes);
      FrameCount(s.fifo[..size], s.channels, nframes);
    }
  }

  // ----- accounting of the daemon -----

  /** A reader only ever moves the read position forward. */
  function ReaderTakes(readPos: nat, size: nat, n: nat): nat { if readPos + n <= size then readPos + n else readPos }

  ghost predicate Books(s: Daemon, captured: nat) {
    && (s.channels == 0 || Supported(s.channels))
    && captured == s.received + s.nonReac + s.malformed
    && s.overruns == s.droppedPackets <= s.received
    && |s.log| == FRAMES_PER_PACKET * (s.received - s.droppedPackets)
    && s.clockSeq == 2 * (s.received - s.droppedPackets)
    && s.readPos <= |s.log| <= s.readPos + DAEMON_RING
    && (s.channels == 0 ==> s.received == 0)
    && IsMatrix(s.log, s.channels)
    && |s.noted| == s.received && s.tracker == NoteAll(s.noted)
  }

  lemma PayloadFrames(frame: seq<Byte>)
    requires ParsePacket(frame).Parsed?
    ensures var v := ParsePacket(frame).view;
            && Supported(v.channels) && |v.payload| == 36 * v.channels
            && |v.payload| == Slot(FRAMES_PER_PACKET, BYTES_PER_SAMPLE * v.channels, 0)
            && |DecodeFrames(v.payload, v.channels)| == FRAMES_PER_PACKET
  {
    var v := ParsePacket(frame).view;
    SlotValue(FRAMES_PER_PACKET, BYTES_PER_SAMPLE * v.channels, 0);
    FrameCount(v.payload, v.channels, FRAMES_PER_PACKET);
  }

  lemma DaemonKeepsBooks(s: Daemon, captured: nat, frame: seq<Byte>)
    requires Books(s, captured)
    ensures Books(DaemonStep(s, frame), captured + 1)
    ensures s.channels != 0 ==> DaemonStep(s, frame).channels == s.channels
  {
    if ParsePacket(frame).Parsed? {
      PayloadFrames(frame);
      assert (s.noted + [ParsePacket(frame).view.counter])[..|s.noted|] == s.noted;
    }
  }

  // ----- the JACK byte stream stays aligned -----

  /** A whole number of frames. */
  ghost predicate Aligned(b: seq<Byte>, channels: nat) {
    exists k: nat :: |b| == Slot(k, BYTES_PER_SAMPLE * channels, 0)
  }

  ghost predicate JackInv(s: Jack) {
    && (s.channels == 0 <==> s.dataSize == 0)
    && (s.channels == 0 ==> s.fifo == s.written == [] && s.played == [])
    && (s.channels != 0 ==>
          && Supported(s.channels) && s.dataSize == 36 * s.channels
          && Aligned(s.fifo, s.channels) && Aligned(s.written, s.channels)
          && (s.lostBlocks == 0 ==>
                DecodeFrames(s.written, s.channels) == s.played + DecodeFrames(s.fifo, s.channels)))
  }

  lemma {:induction false} SlotSum(j: nat, k: nat, n: nat)
    ensures Slot(j + k, n, 0) == Slot(j, n, 0) + Slot(k, n, 0)
  {
    if j > 0 {
      SlotSum(j - 1, k, n);
    }
  }

  lemma AlignedAppend(a: seq<Byte>, b: seq<Byte>, channels: nat)
    requires Supported(channels) && Aligned(a, channels) && Aligned(b, channels)
    ensures Aligned(a + b, channels)
    ensures DecodeFrames(a + b, channels) == DecodeFrames(a, channels) + DecodeFrames(b, channels)
  {
    var n := BYTES_PER_SAMPLE * channels;
    var j: nat :| |a| == Slot(j, n, 0);
    var k: nat :| |b| == Slot(k, n, 0);
    SlotSum(j, k, n);
    DecodeConcat(a, b, channels, j);
  }

  lemma SlotCancel(m: nat, k: nat, n: nat)
    requires n > 0 && Slot(m, n, 0) <= Slot(k, n, 0)
    ensures m <= k && Slot(k, n, 0) - Slot(m, n, 0) == Slot(k - m, n, 0)
  {
    if k < m {
      SlotMonotone(k + 1, m, n, 0);
    } else {
      SlotSum(m, k - m, n);
    }
  }

  /** Taking whole frames from the front leaves whole frames, and splits the decoded stream there. */
  lemma AlignedSplit(b: seq<Byte>, channels: nat, m: nat, size: nat)
    requires Supported(channels) && Aligned(b, channels)
    requires size == Slot(m, BYTES_PER_SAMPLE * channels, 0) && size <= |b|
    ensures Aligned(b[size..], channels)
    ensures DecodeFrames(b, channels) == DecodeFrames(b[..size], channels) + DecodeFrames(b[size..], channels)
  {
    var n := BYTES_PER_SAMPLE * channels;
    var k: nat :| |b| == Slot(k, n, 0);
    SlotCancel(m, k, n);
    assert |b[size..]| == Slot(k - m, n, 0);
    Rejoin(b, size);
    DecodeConcat(b[..size], b[size..], channels, m);
  }

  lemma Rejoin(b: seq<Byte>, size: nat)
    requires size <= |b|
    ensures b[..size] + b[size..] == b
  {
  }

  lemma JackAppendKeeps(s: Jack, p: seq<Byte>, t: Jack)
    requires JackInv(s) && Supported(t.channels) && t.dataSize == 36 * t.channels && Aligned(p, t.channels)
    requires s.channels == 0 || s.channels == t.channels
    requires t.fifo == s.fifo + p && t.written == s.written + p && t.played == s.played
    requires t.lostBlocks == s.lostBlocks
    ensures JackInv(t)
  {
    if s.channels == 0 {
      assert t.fifo == p && t.written == p && t.played == [];
    } else {
      AlignedAppend(s.fifo, p, t.channels);
      AlignedAppend(s.written, p, t.channels);
      var q := DecodeFrames(p, t.channels);
      assert (s.played + DecodeFrames(s.fifo, t.channels)) + q == s.played + (DecodeFrames(s.fifo, t.channels) + q);
    }
  }

  lemma JackStepKeeps(s: Jack, frame: seq<Byte>, room: nat)
    requires JackInv(s)
    ensures JackInv(JackStep(s, frame, room))
  {
    if ParsePacket(frame).Parsed? {
      var v := ParsePacket(frame).view;
      var t := JackStep(s, frame, room);
      PayloadFrames(frame);
      assert Aligned(v.payload, v.channels);
      if s.dataSize == 0 || s.dataSize == |v.payload| {
        if room - |s.fifo| < |v.payload| {
          assert Slot(0, BYTES_PER_SAMPLE * v.channels, 0) == 0;
        } else {
          JackAppendKeeps(s, v.payload, t);
        }
      }
    }
  }

  lemma JackProcessKeeps(s: Jack, nframes: nat, bytes: nat, portsOk: bool)
    requires JackInv(s)
    ensures JackInv(JackProcess(s, nframes, bytes, portsOk))
  {
    if s.channels != 0 {
      var size := PayloadBytes(s.channels, nframes);
      PayloadBytesSlot(s.channels, nframes);
      if size <= bytes && size <= |s.fifo| {
        AlignedSplit(s.fifo, s.channels, nframes, size);
      }
    }
  }

  // ----- what the JACK client counts -----

  /** The tracker has noted these and nothing else; the last counter from before does not matter. */
  ghost predicate Noted(t: Tracker, noted: seq<nat>) {
    if noted == [] then !t.have && t.lost == 0 else t == NoteAll(noted)
  }

  lemma NotedOneMore(t: Tracker, noted: seq<nat>, counter: nat)
    requires Noted(t, noted)
    ensures Noted(Note(t, counter), noted + [counter])
  {
    assert (noted + [counter])[..|noted|] == noted;
  }

  /**
    Every packet is classified and noted; the count of received ones restarts at
    every short read. `before` is the count of other frames at the start.
   */
  ghost predicate JackBooks(s: Jack, captured: nat, before: nat) {
    && captured + before == |s.noted| + s.nonReac + s.malformed && Noted(s.tracker, s.noted)
    && s.shortAt <= |s.noted| && s.received == s.shortFrames + (|s.noted| - s.shortAt)
    && (s.jackUnderrun == 0 ==> s.shortAt == 0 && s.shortFrames == 0)
  }

  lemma JackStepBooks(s: Jack, captured: nat, before: nat, frame: seq<Byte>, room: nat)
    requires JackBooks(s, captured, before)
    ensures JackBooks(JackStep(s, frame, room), captured + 1, before)
  {
    if ParsePacket(frame).Parsed? {
      NotedOneMore(s.tracker, s.noted, ParsePacket(frame).view.counter);
    }
  }

  lemma JackProcessBooks(s: Jack, captured: nat, before: nat, nframes: nat, bytes: nat, portsOk: bool)
    requires JackBooks(s, captured, before)
    ensures JackBooks(JackProcess(s, nframes, bytes, portsOk), captured, before)
  {
  }

  // ----- the same packets through all three -----

  /** A captured frame reaches all frontends; each side plays at its own pace. */
  datatype Event =
    | Captured(frame: seq<Byte>)
    | JackPlays(nframes: nat, bytes: nat, portsOk: bool)
    | RingReads(n: nat)
    | PipeWireReads(n: nat)

  datatype World = World(d: Daemon, j: Jack, p: PipeWire)

  function Next(w: World, e: Event, room: nat): World {
    match e
    case Captured(frame) => World(DaemonStep(w.d, frame), JackStep(w.j, frame, room), PipeWireStep(w.p, frame))
    case JackPlays(nframes, bytes, ok) => w.(j := JackProcess(w.j, nframes, bytes, ok))
    case RingReads(n) => w.(d := w.d.(readPos := ReaderTakes(w.d.readPos, |w.d.log|, n)))
    case PipeWireReads(n) => w.(p := w.p.(readPos := ReaderTakes(w.p.readPos, |w.p.log|, n)))
  }

  function CountCaptured(events: seq<Event>): nat {
    if events == [] then 0
    else CountCaptured(events[..|events| - 1]) + if events[|events| - 1].Captured? then 1 else 0
  }

  /** The PipeWire books: its overruns are a class of their own. */
  ghost predicate PipeWireCounts(s: PipeWire, captured: nat) {
    && captured == s.received + s.nonReac + s.malformed + s.overruns
    && |s.log| == FRAMES_PER_PACKET * s.received
    && s.readPos <= |s.log| <= s.readPos + PW_RING
    && |s.noted| == s.received && s.tracker == NoteAll(s.noted)
  }

  ghost predicate PipeWireBooks(s: PipeWire, captured: nat) { PipeWireCounts(s, captured) && Placed(s) }

  /** Where the noted packets are among those that arrived; the first one always found room. */
  ghost predicate Placed(s: PipeWire) {
    && |s.arrived| == s.received + s.overruns && |s.notedAt| == |s.noted|
    && (forall i | 0 <= i < |s.notedAt| :: s.notedAt[i] < |s.arrived|)
    && (forall i | 0 <= i < |s.notedAt| :: s.noted[i] == s.arrived[s.notedAt[i]])
    && Increasing(s.notedAt)
    && (s.arrived != [] ==> s.notedAt != [] && s.notedAt[0] == 0)
  }

  /** Frames written to the JACK FIFO so far. */
  ghost function JackFrames(s: Jack): Matrix
    requires s.channels == 0 || Supported(s.channels)
  {
    if s.channels == 0 then [] else DecodeFrames(s.written, s.channels)
  }

  /**
    While neither has run out of room, a daemon and a JACK client with the same
    channel count have buffered the same frames. When both detect the channel
    count, they detect the same one.
   */
  ghost predicate AgreeJack(d: Daemon, j: Jack, detecting: bool)
    requires Configured(j.channels)
  {
    && (detecting ==> d.channels == j.channels)
    && (d.channels == 0 ==> d.log == [] && j.written == [])
    && (j.channels == 0 ==> d.log == [])
    && (d.channels == j.channels && d.droppedPackets == 0 && j.netUnderrun == 0 ==> d.log == JackFrames(j))
  }

  /** And so for the PipeWire source. */
  ghost predicate AgreePipeWire(d: Daemon, p: PipeWire) {
    && (d.channels == 0 ==> d.log == [] && p.log == [])
    && (d.channels == p.channels && d.droppedPackets == 0 && p.overruns == 0 ==> d.log == p.log)
  }

  /**
    How a run starts: the daemon's and the PipeWire source's channel counts as
    configured, the JACK client, and the room of its byte FIFO.
   */
  datatype Config = Config(daemon: nat, jack: Jack, pipeWire: nat, room: nat)

  predicate Starts(c: Config) { Configured(c.daemon) && Startable(c.jack) }

  predicate Detecting(c: Config) { c.daemon == 0 && c.jack.channels == 0 }

  ghost predicate Inv(w: World, captured: nat, c: Config) {
    && Books(w.d, captured) && PipeWireBooks(w.p, captured)
    && JackInv(w.j) && JackBooks(w.j, captured, c.jack.nonReac)
    && AgreeJack(w.d, w.j, Detecting(c)) && AgreePipeWire(w.d, w.p)
  }

  lemma PlacedStep(s: PipeWire, t: PipeWire, counter: nat)
    requires Placed(s) && t.arrived == s.arrived + [counter]
    requires (t.received == s.received && t.overruns == s.overruns + 1 && t.noted == s.noted && t.notedAt == s.notedAt
              && s.arrived != [])
          || (t.received == s.received + 1 && t.overruns == s.overruns && t.noted == s.noted + [counter]
              && t.notedAt == s.notedAt + [|s.arrived|])
    ensures Placed(t)
  {
  }

  lemma PipeWireKeepsCounts(s: PipeWire, captured: nat, frame: seq<Byte>)
    requires PipeWireCounts(s, captured)
    ensures PipeWireCounts(PipeWireStep(s, frame), captured + 1)
  {
    if ParsePacket(frame).Parsed? {
      PayloadFrames(frame);
      assert (s.noted + [ParsePacket(frame).view.counter])[..|s.noted|] == s.noted;
    }
  }

  lemma FirstArrivalFits(s: PipeWire, captured: nat)
    requires PipeWireBooks(s, captured) && s.arrived == []
    ensures |s.log| - s.readPos + FRAMES_PER_PACKET <= PW_RING
  {
  }

  lemma PipeWireKeepsPlaces(s: PipeWire, captured: nat, v: View)
    requires PipeWireBooks(s, captured) && Supported(v.channels)
    ensures Placed(PipeWireAccept(s, v))
  {
    if v.channels == s.channels {
      if s.arrived == [] {
        FirstArrivalFits(s, captured);
      }
      PlacedStep(s, PipeWireAccept(s, v), v.counter);
    }
  }

  lemma PipeWireKeepsBooks(s: PipeWire, captured: nat, frame: seq<Byte>)
    requires PipeWireBooks(s, captured)
    ensures PipeWireBooks(PipeWireStep(s, frame), captured + 1)
  {
    PipeWireKeepsCounts(s, captured, frame);
    if ParsePacket(frame).Parsed? {
      PipeWireKeepsPlaces(s, captured, ParsePacket(frame).view);
    }
  }

  lemma JackFramesGrow(s: Jack, frame: seq<Byte>, room: nat)
    requires JackInv(s) && ParsePacket(frame).Parsed? && JackStep(s, frame, room).netUnderrun == 0
    requires s.channels == 0 || s.channels == ParsePacket(frame).view.channels
    ensures var v := ParsePacket(frame).view; var t := JackStep(s, frame, room);
            s.netUnderrun == 0 && t.channels == v.channels && Supported(t.channels)
            && JackFrames(t) == JackFrames(s) + DecodeFrames(v.payload, v.channels)
  {
    PayloadFrames(frame);
    var v := ParsePacket(frame).view;
    assert Aligned(v.payload, v.channels);
    if s.channels != 0 {
      AlignedAppend(s.written, v.payload, v.channels);
    } else {
      assert s.written + v.payload == v.payload;
    }
  }

  lemma CaptureAgreesJack(d: Daemon, j: Jack, detecting: bool, frame: seq<Byte>, room: nat)
    requires JackInv(j) && AgreeJack(d, j, detecting) && Configured(d.channels)
    ensures JackInv(JackStep(j, frame, room)) && AgreeJack(DaemonStep(d, frame), JackStep(j, frame, room), detecting)
  {
    JackStepKeeps(j, frame, room);
    if ParsePacket(frame).Parsed? {
      var v := ParsePacket(frame).view;
      PayloadFrames(frame);
      if (j.channels == 0 || j.channels == v.channels) && JackStep(j, frame, room).netUnderrun == 0 {
        JackFramesGrow(j, frame, room);
        assert d.channels == 0 ==> JackFrames(j) == [];
      }
    }
  }

  lemma CaptureAgreesPipeWire(d: Daemon, p: PipeWire, frame: seq<Byte>)
    requires AgreePipeWire(d, p)
    ensures AgreePipeWire(DaemonStep(d, frame), PipeWireStep(p, frame))
  {
    if ParsePacket(frame).Parsed? {
      PayloadFrames(frame);
    }
  }

  lemma CaptureKeeps(w: World, captured: nat, c: Config, frame: seq<Byte>)
    requires Inv(w, captured, c)
    ensures Inv(Next(w, Captured(frame), c.room), captured + 1, c)
  {
    DaemonKeepsBooks(w.d, captured, frame);
    PipeWireKeepsBooks(w.p, captured, frame);
    JackStepBooks(w.j, captured, c.jack.nonReac, frame, c.room);
    CaptureAgreesJack(w.d, w.j, Detecting(c), frame, c.room);
    CaptureAgreesPipeWire(w.d, w.p, frame);
  }

  lemma PlayKeeps(w: World, captured: nat, c: Config, e: Event)
    requires Inv(w, captured, c) && e.JackPlays?
    ensures Inv(Next(w, e, c.room), captured, c)
  {
    JackProcessKeeps(w.j, e.nframes, e.bytes, e.portsOk);
    JackProcessBooks(w.j, captured, c.jack.nonReac, e.nframes, e.bytes, e.portsOk);
  }

  lemma NextKeeps(w: World, captured: nat, c: Config, e: Event)
    requires Inv(w, captured, c)
    ensures Inv(Next(w, e, c.room), captured + (if e.Captured? then 1 else 0), c)
  {
    match e
    case Captured(frame) => CaptureKeeps(w, captured, c, frame);
    case JackPlays(_, _, _) => PlayKeeps(w, captured, c, e);
    case RingReads(_) =>
    case PipeWireReads(_) =>
  }

  function Start(c: Config): World { World(NewDaemon(c.daemon), c.jack, NewPipeWire(c.pipeWire)) }

  function Exec(c: Config, events: seq<Event>): World {
    if events == [] then Start(c) else Next(Exec(c, events[..|events| - 1]), events[|events| - 1], c.room)
  }

  lemma StartableIsGood(j: Jack)
    requires Startable(j)
    ensures JackInv(j) && JackBooks(j, 0, j.nonReac) && JackFrames(j) == []
  {
    assert j.channels != 0 ==> |j.fifo| == Slot(0, BYTES_PER_SAMPLE * j.channels, 0);
  }

  lemma StartInv(c: Config)
    requires Starts(c)
    ensures Inv(Start(c), 0, c)
  {
    StartableIsGood(c.jack);
    assert Books(NewDaemon(c.daemon), 0);
    assert PipeWireBooks(NewPipeWire(c.pipeWire), 0);
  }

  lemma {:induction false} ExecInv(c: Config, events: seq<Event>)
    requires Starts(c)
    ensures Inv(Exec(c, events), CountCaptured(events), c)
  {
    if events == [] {
      StartInv(c);
    } else {
      var front := events[..|events| - 1];
      ExecInv(c, front);
      NextKeeps(Exec(c, front), CountCaptured(front), c, events[|events| - 1]);
    }
  }

  lemma ResetIsStartable(s: Jack)
    requires JackInv(s)
    ensures Startable(AfterReset(s)) && JackInv(AfterReset(s))
  {
    StartableIsGood(AfterReset(s));
  }

  /** A new client may start, and after any run of it the reset leaves it as one that may start. */
  lemma ResetStartsAnew(c: Config, events: seq<Event>)
    requires Starts(c)
    ensures Startable(NEW_JACK) && Startable(AfterReset(Exec(c, events).j))
    ensures AfterReset(Exec(c, events).j).channels == Exec(c, events).j.channels
  {
    ExecInv(c, events);
    ResetIsStartable(Exec(c, events).j);
  }

  // ----- main results -----

  /** Over every capture run, whatever the reader does meanwhile, the daemon's counters tie to the ring. */
  lemma DaemonAccounting(c: Config, events: seq<Event>)
    requires Starts(c)
    ensures var d := Exec(c, events).d;
            && CountCaptured(events) == d.received + d.nonReac + d.malformed
            && d.overruns == d.droppedPackets <= d.received
            && |d.log| == 12 * (d.received - d.droppedPackets) && d.clockSeq == 2 * (d.received - d.droppedPackets)
  {
    ExecInv(c, events);
    BooksSay(Exec(c, events).d, CountCaptured(events));
  }

  lemma BooksSay(d: Daemon, captured: nat)
    requires Books(d, captured)
    ensures captured == d.received + d.nonReac + d.malformed && d.overruns == d.droppedPackets <= d.received
    ensures |d.log| == 12 * (d.received - d.droppedPackets) && d.clockSeq == 2 * (d.received - d.droppedPackets)
  {
  }

  lemma ChannelsKept(w: World, captured: nat, c: Config, e: Event)
    requires Inv(w, captured, c) && w.d.channels != 0
    ensures Next(w, e, c.room).d.channels == w.d.channels
  {
    if e.Captured? {
      DaemonKeepsBooks(w.d, captured, e.frame);
    }
  }

  lemma {:induction false} LastEventKeepsChannels(c: Config, events: seq<Event>, n: nat)
    requires Starts(c) && n + 1 == |events| && Exec(c, events[..n]).d.channels != 0
    ensures Exec(c, events).d.channels == Exec(c, events[..n]).d.channels
  {
    ExecInv(c, events[..n]);
    ChannelsKept(Exec(c, events[..n]), CountCaptured(events[..n]), c, events[n]);
  }

  /** Once the ring exists its channel count is never changed, whatever is captured later. */
  lemma {:induction false} ChannelsFixed(c: Config, events: seq<Event>, k: nat)
    requires Starts(c) && k <= |events| && Exec(c, events[..k]).d.channels != 0
    ensures Exec(c, events).d.channels == Exec(c, events[..k]).d.channels
  {
    var n := |events| - 1;
    if k <= n {
      assert events[..n][..k] == events[..k];
      ChannelsFixed(c, events[..n], k);
      LastEventKeepsChannels(c, events, n);
    } else {
      assert events[..k] == events;
    }
  }

  /**
    Exact loss accounting: when the packets the daemon noted carry the low
    sixteen bits of increasing numbers, received plus lost is the span of those
    numbers if and only if no two consecutive ones are more than 32768 apart.
   */
  lemma {:induction false} DaemonLossIsExact(c: Config, events: seq<Event>, numbers: seq<nat>)
    requires Starts(c)
    requires numbers != [] && Increasing(numbers) && Exec(c, events).d.noted == Wire(numbers)
    ensures var d := Exec(c, events).d;
            d.received + d.tracker.lost == Span(numbers) <==> ShortGaps(numbers)
  {
    ExecInv(c, events);
    LossIsExactIffGapsAreShort(numbers);
  }

  /** The same for the packets the PipeWire source noted. */
  lemma {:induction false} PipeWireLossIsExact(c: Config, events: seq<Event>, numbers: seq<nat>)
    requires Starts(c)
    requires numbers != [] && Increasing(numbers) && Exec(c, events).p.noted == Wire(numbers)
    ensures var p := Exec(c, events).p;
            p.received + p.tracker.lost == Span(numbers) <==> ShortGaps(numbers)
  {
    ExecInv(c, events);
    LossIsExactIffGapsAreShort(numbers);
  }

  /**
    Buffer-then-decode equals decode-then-buffer: for the same captured frames,
    while neither side ran out of room and no port failed, what JACK has played
    followed by what its byte FIFO still holds is the daemon's stream, however
    the playing was cut into blocks. Both have to have the same channel count,
    which they have when both detect it.
   */
  lemma JackStreamIsDaemonStream(c: Config, events: seq<Event>)
    requires Starts(c)
    requires var w := Exec(c, events);
             && w.d.droppedPackets == 0 && w.j.netUnderrun == 0 && w.j.lostBlocks == 0
             && w.d.channels != 0 && (Detecting(c) || w.d.channels == w.j.channels)
    ensures var w := Exec(c, events);
            && Supported(w.j.channels) && Aligned(w.j.fifo, w.j.channels)
            && w.d.log == w.j.played + DecodeFrames(w.j.fifo, w.j.channels)
  {
    ExecInv(c, events);
  }

  /** The PipeWire source buffers the same stream as the daemon when it has the same channel count. */
  lemma PipeWireStreamIsDaemonStream(c: Config, events: seq<Event>)
    requires Starts(c)
    requires var w := Exec(c, events);
             w.d.droppedPackets == 0 && w.p.overruns == 0 && w.d.channels == w.p.channels
    ensures Exec(c, events).d.log == Exec(c, events).p.log
  {
    ExecInv(c, events);
  }
}

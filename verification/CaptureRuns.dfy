/**
  What the three frontends make of a capture, by the bytes of the captured
  frames alone: which ones they take, note and store, which they count as not
  REAC, and that they refuse nothing there is room for.
 */
module CaptureRuns {
  import opened Audio
  import opened Packet
  import opened LossCounter
  import opened Frontends

  // ----- frames, by their bytes -----

  /** The channel count of a REAC frame, and 0 for any other. */
  function ReacChannels(frame: seq<Byte>): nat {
    if |frame| >= 52 && (|frame| - 52) % 36 == 0 && IsReac(frame, (|frame| - 52) / 36) then (|frame| - 52) / 36 else 0
  }

  function CounterOf(frame: seq<Byte>): nat { if |frame| >= 52 then frame[14] as int + 0x100 * frame[15] as int else 0 }

  function PayloadOf(frame: seq<Byte>): seq<Byte> { if |frame| >= 52 then frame[50..|frame| - 2] else [] }

  /** Long enough for a REAC frame, but of another EtherType. */
  predicate Foreign(frame: seq<Byte>) { |frame| >= 52 && !(frame[12] == 0x88 && frame[13] == 0x19) }

  lemma ParsedByBytes(frame: seq<Byte>)
    ensures ParsePacket(frame).Parsed? <==> ReacChannels(frame) != 0
    ensures ParsePacket(frame).Parsed? ==>
              && ParsePacket(frame).view == View(CounterOf(frame), ReacChannels(frame), PayloadOf(frame))
              && |PayloadOf(frame)| == 36 * ReacChannels(frame) && Supported(ReacChannels(frame))
    ensures ParsePacket(frame) == Rejected(NotReac) <==> Foreign(frame)
  {
    AcceptedExactly(frame);
    RejectedExactly(frame);
    if ParsePacket(frame).Parsed? {
      var c :| IsReac(frame, c);
      assert (|frame| - 52) / 36 == c;
    }
  }

  // ----- one frame, by its bytes -----

  /** The daemon drops an accepted packet if and only if twelve more frames do not fit with what is unread. */
  lemma DaemonByBytes(d: Daemon, frame: seq<Byte>)
    ensures var c := ReacChannels(frame); var e := DaemonStep(d, frame);
            var taken := c != 0 && (d.channels == 0 || d.channels == c); var fits := |d.log| - d.readPos + 12 <= 48000;
            && e.readPos == d.readPos && e.received == d.received + (if taken then 1 else 0)
            && e.droppedPackets == d.droppedPackets + (if taken && !fits then 1 else 0)
            && e.log == (if taken && fits then d.log + DecodeFrames(PayloadOf(frame), c) else d.log)
            && e.nonReac == d.nonReac + (if Foreign(frame) then 1 else 0)
            && e.malformed == d.malformed + (if taken || Foreign(frame) then 0 else 1)
  {
    ParsedByBytes(frame);
  }

  /** The same for the PipeWire source and its ring. */
  lemma PipeWireByBytes(p: PipeWire, frame: seq<Byte>)
    ensures var c := ReacChannels(frame); var q := PipeWireStep(p, frame);
            var taken := c != 0 && p.channels == c; var fits := |p.log| - p.readPos + 12 <= 96000;
            && q.readPos == p.readPos && q.received == p.received + (if taken && fits then 1 else 0)
            && q.overruns == p.overruns + (if taken && !fits then 1 else 0)
            && q.log == (if taken && fits then p.log + DecodeFrames(PayloadOf(frame), c) else p.log)
            && q.nonReac == p.nonReac + (if Foreign(frame) then 1 else 0)
            && q.malformed == p.malformed + (if taken || Foreign(frame) then 0 else 1)
  {
    ParsedByBytes(frame);
  }

  /** And for the JACK client and its byte FIFO. */
  lemma JackByBytes(j: Jack, frame: seq<Byte>, room: nat)
    ensures var c := ReacChannels(frame); var k := JackStep(j, frame, room);
            var taken := c != 0 && (j.dataSize == 0 || j.dataSize == 36 * c); var fits := |j.fifo| + 36 * c <= room;
            && k.received == j.received + (if taken then 1 else 0)
            && k.netUnderrun == j.netUnderrun + (if taken && !fits then 1 else 0)
            && k.fifo == (if taken && fits then j.fifo + PayloadOf(frame) else j.fifo)
            && k.nonReac == j.nonReac + (if Foreign(frame) then 1 else 0)
            && k.malformed == j.malformed + (if taken || Foreign(frame) then 0 else 1)
  {
    ParsedByBytes(frame);
  }

  // ----- a capture -----

  /** The captured REAC frames of c channels, in order. */
  function Wanted(events: seq<Event>, c: nat): seq<seq<Byte>> {
    if events == [] then []
    else
      var before, last := Wanted(events[..|events| - 1], c), events[|events| - 1];
      if last.Captured? && c != 0 && ReacChannels(last.frame) == c then before + [last.frame] else before
  }

  /** The channel count of the first REAC frame, and 0 while there is none. */
  function Detected(events: seq<Event>): nat {
    if events == [] then 0
    else
      var before, last := Detected(events[..|events| - 1]), events[|events| - 1];
      if before == 0 && last.Captured? then ReacChannels(last.frame) else before
  }

  function ForeignFrames(events: seq<Event>): nat {
    if events == [] then 0
    else
      var last := events[|events| - 1];
      ForeignFrames(events[..|events| - 1]) + if last.Captured? && Foreign(last.frame) then 1 else 0
  }

  function Counters(frames: seq<seq<Byte>>): (r: seq<nat>)
    ensures |r| == |frames| && forall i | 0 <= i < |r| :: r[i] == CounterOf(frames[i])
  {
    seq(|frames|, i requires 0 <= i < |frames| => CounterOf(frames[i]))
  }

  function Payloads(frames: seq<seq<Byte>>): seq<Byte> {
    if frames == [] then [] else Payloads(frames[..|frames| - 1]) + PayloadOf(frames[|frames| - 1])
  }

  /** The samples of these frames. */
  function Stream(frames: seq<seq<Byte>>, c: nat): Matrix {
    if Supported(c) then DecodeFrames(Payloads(frames), c) else []
  }

  /** REAC frames of c channels. */
  predicate Uniform(frames: seq<seq<Byte>>, c: nat) {
    forall i | 0 <= i < |frames| :: ReacChannels(frames[i]) == c
  }

  lemma {:induction false} WantedUniform(events: seq<Event>, c: nat)
    ensures Uniform(Wanted(events, c), c)
  {
    if events != [] {
      WantedUniform(events[..|events| - 1], c);
    }
  }

  lemma {:induction false} NothingDetected(events: seq<Event>, c: nat)
    requires Detected(events) == 0
    ensures Wanted(events, c) == []
  {
    if events != [] {
      NothingDetected(events[..|events| - 1], c);
    }
  }

  lemma {:induction false} PayloadsLength(frames: seq<seq<Byte>>, c: nat)
    requires c != 0 && Uniform(frames, c)
    ensures |Payloads(frames)| == Slot(|frames|, 36 * c, 0)
  {
    if frames != [] {
      PayloadsLength(frames[..|frames| - 1], c);
      ParsedByBytes(frames[|frames| - 1]);
    }
  }

  lemma PayloadsAligned(frames: seq<seq<Byte>>, c: nat)
    requires Supported(c) && Uniform(frames, c)
    ensures Aligned(Payloads(frames), c)
  {
    PayloadsLength(frames, c);
    TwelveFrames(|frames|, c);
  }

  /** n packets are 12 n frames. */
  lemma TwelveFrames(n: nat, c: nat)
    ensures Slot(n, 36 * c, 0) == Slot(12 * n, BYTES_PER_SAMPLE * c, 0)
  {
    SlotValue(n, 36 * c, 0);
    SlotValue(12 * n, BYTES_PER_SAMPLE * c, 0);
    assert n * (36 * c) == 12 * n * (3 * c);
  }

  lemma OnePayloadAligned(payload: seq<Byte>, c: nat)
    requires |payload| == 36 * c
    ensures Aligned(payload, c)
  {
    SlotValue(FRAMES_PER_PACKET, BYTES_PER_SAMPLE * c, 0);
  }

  /** One more frame adds its payload and its samples. */
  lemma StreamGrows(frames: seq<seq<Byte>>, frame: seq<Byte>, c: nat)
    requires Supported(c) && Uniform(frames, c) && ReacChannels(frame) == c
    ensures Counters(frames + [frame]) == Counters(frames) + [CounterOf(frame)]
    ensures Payloads(frames + [frame]) == Payloads(frames) + PayloadOf(frame)
    ensures Stream(frames + [frame], c) == Stream(frames, c) + DecodeFrames(PayloadOf(frame), c)
  {
    assert (frames + [frame])[..|frames|] == frames;
    PayloadsAligned(frames, c);
    ParsedByBytes(frame);
    OnePayloadAligned(PayloadOf(frame), c);
    AlignedAppend(Payloads(frames), PayloadOf(frame), c);
  }

  // ----- the daemon -----

  ghost predicate DaemonTakes(d: Daemon, events: seq<Event>, configured: nat) {
    var taken := Wanted(events, d.channels);
    && d.channels == (if configured != 0 then configured else Detected(events))
    && d.nonReac == ForeignFrames(events)
    && d.noted == Counters(taken)
    && (d.droppedPackets == 0 ==> d.log == Stream(taken, d.channels))
    && (12 * |taken| <= 48000 ==> d.droppedPackets == 0)
  }

  lemma Last(events: seq<Event>, e: Event)
    ensures (events + [e])[..|events|] == events && (events + [e])[|events|] == e
  {
  }

  /** A frame that is not of the daemon's channel count changes none of what it takes. */
  lemma DaemonPassesOver(d: Daemon, events: seq<Event>, configured: nat, frame: seq<Byte>)
    requires DaemonTakes(d, events, configured) && Configured(d.channels)
    requires ReacChannels(frame) == 0 || (d.channels != 0 && ReacChannels(frame) != d.channels)
    ensures DaemonTakes(DaemonStep(d, frame), events + [Captured(frame)], configured)
  {
    ParsedByBytes(frame);
    Last(events, Captured(frame));
  }

  lemma DaemonTakesOne(d: Daemon, events: seq<Event>, configured: nat, frame: seq<Byte>, captured: nat)
    requires DaemonTakes(d, events, configured) && Books(d, captured)
    requires var c := ReacChannels(frame); c != 0 && (d.channels == 0 || d.channels == c)
    ensures DaemonTakes(DaemonStep(d, frame), events + [Captured(frame)], configured)
  {
    var c := ReacChannels(frame);
    ParsedByBytes(frame);
    Last(events, Captured(frame));
    if d.channels == 0 {
      NothingDetected(events, c);
    }
    var before := Wanted(events, c);
    assert before == Wanted(events, d.channels) || d.channels == 0;
    assert Wanted(events + [Captured(frame)], c) == before + [frame];
    WantedUniform(events, c);
    StreamGrows(before, frame, c);
    DaemonStores(d, before, frame, c, captured);
  }

  /** The step on a frame of the daemon's own channel count. */
  lemma DaemonStores(d: Daemon, before: seq<seq<Byte>>, frame: seq<Byte>, c: nat, captured: nat)
    requires Books(d, captured) && ReacChannels(frame) == c != 0 && (d.channels == 0 || d.channels == c)
    requires |d.noted| == |before| || (d.channels == 0 && before == [])
    requires 12 * |before| <= 48000 ==> d.droppedPackets == 0
    ensures var e := DaemonStep(d, frame);
            && e.channels == c && e.nonReac == d.nonReac && e.noted == d.noted + [CounterOf(frame)]
            && (e.droppedPackets == 0 ==> d.droppedPackets == 0 && e.log == d.log + DecodeFrames(PayloadOf(frame), c))
            && (12 * (|before| + 1) <= 48000 ==> e.droppedPackets == 0)
  {
    ParsedByBytes(frame);
  }

  // ----- the PipeWire source -----

  ghost predicate PipeWireTakes(p: PipeWire, events: seq<Event>) {
    var taken := Wanted(events, p.channels);
    && p.nonReac == ForeignFrames(events)
    && p.arrived == Counters(taken)
    && (p.overruns == 0 ==> p.log == Stream(taken, p.channels))
    && (12 * |taken| <= 96000 ==> p.overruns == 0)
  }

  lemma PipeWireStores(p: PipeWire, frame: seq<Byte>, c: nat, captured: nat)
    requires PipeWireBooks(p, captured) && ReacChannels(frame) == c == p.channels != 0
    requires 12 * |p.arrived| <= 96000 ==> p.overruns == 0
    ensures var q := PipeWireStep(p, frame);
            && q.channels == c && q.nonReac == p.nonReac && q.arrived == p.arrived + [CounterOf(frame)]
            && (q.overruns == 0 ==> p.overruns == 0 && q.log == p.log + DecodeFrames(PayloadOf(frame), c))
            && (12 * |q.arrived| <= 96000 ==> q.overruns == 0)
  {
    ParsedByBytes(frame);
  }

  lemma PipeWireTakesStep(p: PipeWire, events: seq<Event>, frame: seq<Byte>, captured: nat)
    requires PipeWireTakes(p, events) && PipeWireBooks(p, captured)
    ensures PipeWireTakes(PipeWireStep(p, frame), events + [Captured(frame)])
  {
    var c := ReacChannels(frame);
    ParsedByBytes(frame);
    Last(events, Captured(frame));
    if c != 0 && c == p.channels {
      WantedUniform(events, c);
      StreamGrows(Wanted(events, c), frame, c);
      PipeWireStores(p, frame, c, captured);
    }
  }

  // ----- the JACK client -----

  ghost predicate JackTakes(j: Jack, events: seq<Event>, start: Jack, room: nat) {
    var taken := Wanted(events, j.channels);
    && j.channels == (if start.channels != 0 then start.channels else Detected(events))
    && j.nonReac == start.nonReac + ForeignFrames(events)
    && j.noted == Counters(taken)
    && |j.fifo| <= |j.written| <= Slot(|taken|, 36 * j.channels, 0)
    && (j.netUnderrun == 0 ==> j.written == Payloads(taken))
    && (Slot(|taken|, 36 * j.channels, 0) <= room ==> j.netUnderrun == 0)
  }

  lemma JackPassesOver(j: Jack, events: seq<Event>, start: Jack, frame: seq<Byte>, room: nat)
    requires JackTakes(j, events, start, room) && JackInv(j)
    requires ReacChannels(frame) == 0 || (j.channels != 0 && ReacChannels(frame) != j.channels)
    ensures JackTakes(JackStep(j, frame, room), events + [Captured(frame)], start, room)
  {
    ParsedByBytes(frame);
    Last(events, Captured(frame));
  }

  /** Room for n + 1 payloads is room for one more when no more than n are held. */
  lemma JackStores(j: Jack, n: nat, frame: seq<Byte>, c: nat, room: nat)
    requires JackInv(j) && ReacChannels(frame) == c != 0 && (j.channels == 0 || j.channels == c)
    requires |j.fifo| <= |j.written| <= Slot(n, 36 * c, 0)
    requires Slot(n, 36 * c, 0) <= room ==> j.netUnderrun == 0
    ensures var k := JackStep(j, frame, room);
            && k.channels == c && k.nonReac == j.nonReac && k.noted == j.noted + [CounterOf(frame)]
            && |k.fifo| <= |k.written| <= Slot(n + 1, 36 * c, 0)
            && (k.netUnderrun == 0 ==> j.netUnderrun == 0 && k.written == j.written + PayloadOf(frame))
            && (Slot(n + 1, 36 * c, 0) <= room ==> k.netUnderrun == 0)
  {
    ParsedByBytes(frame);
    assert Slot(n + 1, 36 * c, 0) == 36 * c + Slot(n, 36 * c, 0);
  }

  lemma JackTakesOne(j: Jack, events: seq<Event>, start: Jack, frame: seq<Byte>, room: nat)
    requires JackTakes(j, events, start, room) && JackInv(j)
    requires var c := ReacChannels(frame); c != 0 && (j.channels == 0 || j.channels == c)
    ensures JackTakes(JackStep(j, frame, room), events + [Captured(frame)], start, room)
  {
    var c := ReacChannels(frame);
    ParsedByBytes(frame);
    Last(events, Captured(frame));
    if j.channels == 0 {
      NothingDetected(events, c);
      NothingDetected(events, 0);
      assert Slot(0, 36 * c, 0) == 0 && Slot(0, 36 * j.channels, 0) == 0;
    }
    var before := Wanted(events, c);
    assert Wanted(events + [Captured(frame)], c) == before + [frame];
    WantedUniform(events, c);
    StreamGrows(before, frame, c);
    JackStores(j, |before|, frame, c, room);
  }

  lemma JackPlaying(j: Jack, events: seq<Event>, start: Jack, e: Event, room: nat)
    requires JackTakes(j, events, start, room) && e.JackPlays?
    ensures JackTakes(JackProcess(j, e.nframes, e.bytes, e.portsOk), events + [e], start, room)
  {
    Last(events, e);
  }

  // ----- whole runs -----

  ghost predicate Takes(w: World, events: seq<Event>, c: Config) {
    && DaemonTakes(w.d, events, c.daemon) && PipeWireTakes(w.p, events) && w.p.channels == c.pipeWire
    && JackTakes(w.j, events, c.jack, c.room)
  }

  lemma DaemonTakesStep(d: Daemon, events: seq<Event>, configured: nat, frame: seq<Byte>, captured: nat)
    requires DaemonTakes(d, events, configured) && Books(d, captured)
    ensures DaemonTakes(DaemonStep(d, frame), events + [Captured(frame)], configured)
  {
    var c := ReacChannels(frame);
    if c != 0 && (d.channels == 0 || d.channels == c) {
      DaemonTakesOne(d, events, configured, frame, captured);
    } else {
      DaemonPassesOver(d, events, configured, frame);
    }
  }

  lemma JackTakesStep(j: Jack, events: seq<Event>, start: Jack, frame: seq<Byte>, room: nat)
    requires JackTakes(j, events, start, room) && JackInv(j)
    ensures JackTakes(JackStep(j, frame, room), events + [Captured(frame)], start, room)
  {
    var c := ReacChannels(frame);
    if c != 0 && (j.channels == 0 || j.channels == c) {
      JackTakesOne(j, events, start, frame, room);
    } else {
      JackPassesOver(j, events, start, frame, room);
    }
  }

  lemma CaptureTakes(w: World, events: seq<Event>, c: Config, frame: seq<Byte>, captured: nat)
    requires Takes(w, events, c) && Inv(w, captured, c)
    ensures Takes(Next(w, Captured(frame), c.room), events + [Captured(frame)], c)
  {
    DaemonTakesStep(w.d, events, c.daemon, frame, captured);
    PipeWireTakesStep(w.p, events, frame, captured);
    JackTakesStep(w.j, events, c.jack, frame, c.room);
  }

  /** The other events capture nothing. */
  lemma PlayTakes(w: World, events: seq<Event>, c: Config, e: Event)
    requires Takes(w, events, c) && !e.Captured?
    ensures Takes(Next(w, e, c.room), events + [e], c)
  {
    Last(events, e);
    if e.JackPlays? {
      JackPlaying(w.j, events, c.jack, e, c.room);
    }
  }

  lemma StartTakes(c: Config)
    requires Starts(c)
    ensures Takes(Start(c), [], c)
  {
  }

  /**
    Over every run: each frontend takes exactly the captured REAC frames of its
    channel count, which is the configured one or that of the first REAC frame;
    it notes their counters in order, counts exactly the frames of another
    EtherType as not REAC, stores the samples or bytes of all it took unless it
    refused one, and refuses none as long as everything taken would fit at once.
   */
  lemma {:induction false} RunsTakeExactly(c: Config, events: seq<Event>)
    requires Starts(c)
    ensures Takes(Exec(c, events), events, c)
  {
    if events == [] {
      StartTakes(c);
    } else {
      var front, e := events[..|events| - 1], events[|events| - 1];
      RunsTakeExactly(c, front);
      ExecInv(c, front);
      assert front + [e] == events;
      if e.Captured? {
        CaptureTakes(Exec(c, front), front, c, e.frame, CountCaptured(front));
      } else {
        PlayTakes(Exec(c, front), front, c, e);
      }
    }
  }

  /** Room for n payloads of c channels, in the form the books use. */
  lemma RoomFor(n: nat, c: nat)
    ensures Slot(n, 36 * c, 0) == 36 * c * n
  {
    SlotValue(n, 36 * c, 0);
    assert n * (36 * c) == 36 * c * n;
  }

  lemma NothingRefused(w: World, events: seq<Event>, c: Config, ch: nat)
    requires Takes(w, events, c) && w.d.channels == w.j.channels == w.p.channels == ch
    requires 12 * |Wanted(events, ch)| <= 48000 && Slot(|Wanted(events, ch)|, 36 * ch, 0) <= c.room
    ensures w.d.droppedPackets == 0 && w.j.netUnderrun == 0 && w.p.overruns == 0
    ensures w.d.log == w.p.log == Stream(Wanted(events, ch), ch)
  {
  }

  /**
    So within the room there is, the three streams are one, without a condition
    on what any of them refused: the samples of the captured frames.
   */
  lemma {:induction false} StreamsAgreeWithinRoom(c: Config, events: seq<Event>, ch: nat)
    requires Starts(c) && ch != 0
    requires var w := Exec(c, events); w.d.channels == w.j.channels == w.p.channels == ch && w.j.lostBlocks == 0
    requires 12 * |Wanted(events, ch)| <= 48000 && 36 * ch * |Wanted(events, ch)| <= c.room
    ensures var w := Exec(c, events);
            && Supported(ch) && w.d.log == w.p.log == Stream(Wanted(events, ch), ch)
            && w.j.played + DecodeFrames(w.j.fifo, ch) == Stream(Wanted(events, ch), ch)
  {
    RunsTakeExactly(c, events);
    RoomFor(|Wanted(events, ch)|, ch);
    NothingRefused(Exec(c, events), events, c, ch);
    JackStreamIsDaemonStream(c, events);
  }
}

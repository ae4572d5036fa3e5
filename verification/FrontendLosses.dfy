/** What "received" and "lost" come to in the two frontends that do not count every packet as it arrives. */
module FrontendLosses {
  import opened Audio
  import opened Packet
  import opened LossCounter
  import opened Frontends

  // ----- packets to capture -----

  function Silence(channels: nat): (m: Matrix)
    ensures IsMatrix(m, channels) && |m| == FRAMES_PER_PACKET
  {
    seq(FRAMES_PER_PACKET, _ => seq(channels, _ => 0))
  }

  /** A silent packet of two channels with this counter. */
  function Numbered(counter: nat): seq<Byte>
    requires counter < TWO16
  {
    BuildPacket(seq(12, _ => 0), counter, seq(34, _ => 0), Silence(2), 2)
  }

  /** A packet of two channels with this counter. */
  predicate Carries(frame: seq<Byte>, counter: nat) {
    var p := ParsePacket(frame);
    p.Parsed? && p.view.counter == counter && p.view.channels == 2
  }

  lemma SomePacket(counter: nat) returns (frame: seq<Byte>)
    requires counter < TWO16
    ensures Carries(frame, counter)
  {
    PacketRoundTrip(seq(12, _ => 0), counter, seq(34, _ => 0), Silence(2), 2);
    frame := Numbered(counter);
  }

  /** The packets numbered 0 to n - 1. */
  lemma {:induction false} SomePackets(n: nat) returns (frames: seq<seq<Byte>>)
    requires n <= TWO16
    ensures |frames| == n && forall i | 0 <= i < n :: Carries(frames[i], i)
  {
    if n == 0 {
      frames := [];
    } else {
      frames := SomePackets(n - 1);
      var frame := SomePacket(n - 1);
      frames := frames + [frame];
    }
  }

  // ----- the JACK client -----

  /**
    The JACK client notes every packet it accepts, but restarts its count of
    received ones at every short read, from the frames it found. So in every run
    received plus lost is the span of the numbers if and only if what the last
    short read found too much is what the gaps hide. Without a short read that
    is if and only if the gaps are short; with short gaps, if and only if the
    read found as many frames as packets had been noted.
   */
  lemma {:induction false} JackLossIsExactIff(c: Config, events: seq<Event>, numbers: seq<nat>)
    requires Starts(c)
    requires numbers != [] && Increasing(numbers) && Exec(c, events).j.noted == Wire(numbers)
    ensures var j := Exec(c, events).j;
            && CountCaptured(events) == |numbers| + (j.nonReac - c.jack.nonReac) + j.malformed
            && j.shortAt <= |numbers| && j.received == j.shortFrames + (|numbers| - j.shortAt)
            && (j.received + j.tracker.lost == Span(numbers) <==> j.shortFrames - j.shortAt == Undercount(numbers))
            && (j.jackUnderrun == 0 ==> j.received == |numbers|)
            && (j.jackUnderrun == 0 ==> (j.received + j.tracker.lost == Span(numbers) <==> ShortGaps(numbers)))
            && (ShortGaps(numbers) ==> (j.received + j.tracker.lost == Span(numbers) <==> j.shortFrames == j.shortAt))
  {
    ExecInv(c, events);
    LossAndUndercountIsSpan(numbers);
    UndercountIsNothingIff(numbers);
  }

  function OnePacketOnePeriod(frame: seq<Byte>, nframes: nat, bytes: nat): seq<Event> {
    [Captured(frame), JackPlays(nframes, bytes, true)]
  }

  lemma TwoEvents(c: Config, a: Event, b: Event)
    ensures Exec(c, [a, b]) == Next(Next(Exec(c, []), a, c.room), b, c.room)
  {
    assert [a, b][..1] == [a] && [a][..0] == [];
  }

  lemma FramesInBytes(channels: nat, frames: nat)
    requires channels > 0
    ensures BufferedFrames(PayloadBytes(channels, frames), BYTES_PER_SAMPLE * channels) == frames
  {
    var n := BYTES_PER_SAMPLE * channels;
    assert PayloadBytes(channels, frames) == frames * n;
    Divides(frames, n);
  }

  lemma {:induction false} Divides(k: nat, n: nat)
    requires n > 0
    ensures k * n / n == k
  {
    var q, r := k * n / n, k * n % n;
    assert (k - q) * n == r;
    MultipleGap(k - q, n);
    MultipleGap(q - k, n);
    assert (q - k) * n == -r;
    if k != q { assert (k - q) * n != 0 by { NonZero(k - q, n); } }
  }

  lemma NonZero(d: int, n: nat)
    requires d != 0 && n > 0
    ensures d * n != 0
  {
  }

  /** After any first packet, a period of more than its twelve frames makes one packet count as twelve. */
  lemma ShortReadMiscounts(c: Config, frame: seq<Byte>, nframes: nat, bytes: nat)
    requires Startable(c.jack)
    requires ParsePacket(frame).Parsed? && (c.jack.channels == 0 || c.jack.channels == ParsePacket(frame).view.channels)
    requires |ParsePacket(frame).view.payload| <= c.room
    requires 12 < nframes && PayloadBytes(ParsePacket(frame).view.channels, nframes) <= bytes
    ensures var j := Exec(c, OnePacketOnePeriod(frame, nframes, bytes)).j;
            && j.noted == [ParsePacket(frame).view.counter] && j.tracker.lost == 0 && j.received == 12
  {
    var v := ParsePacket(frame).view;
    PayloadFrames(frame);
    TwoEvents(c, Captured(frame), JackPlays(nframes, bytes, true));
    FramesInBytes(v.channels, 12);
    MorePayload(v.channels, nframes);
    var j := JackStep(c.jack, frame, c.room);
    assert j.fifo == v.payload && |j.fifo| == PayloadBytes(v.channels, 12);
  }

  lemma MorePayload(channels: nat, nframes: nat)
    requires 0 < channels && 12 < nframes
    ensures PayloadBytes(channels, 12) == 36 * channels < PayloadBytes(channels, nframes)
  {
    assert PayloadBytes(channels, nframes) == 36 * channels + 3 * (channels * (nframes - 12));
    assert channels * (nframes - 12) > 0;
  }

  /** One packet of two channels and one period of 128 frames: twelve received, although the wire carried one. */
  lemma JackMiscountExample(c: Config) returns (events: seq<Event>)
    requires c.room >= 72 && Startable(c.jack) && c.jack.channels == 0
    ensures var j := Exec(c, events).j;
            && j.noted == Wire([0]) && ShortGaps([0]) && j.received + j.tracker.lost == 12 && Span([0]) == 1
  {
    var frames := SomePackets(1);
    var frame := frames[0];
    PayloadFrames(frame);
    assert PayloadBytes(2, 128) == 768;
    ShortReadMiscounts(c, frame, 128, 122880);
    events := OnePacketOnePeriod(frame, 128, 122880);
    assert Wire([0]) == [0];
  }

  // ----- the PipeWire source -----

  /** The numbers at these places. */
  function Pick(numbers: seq<nat>, at: seq<nat>): (r: seq<nat>)
    requires forall i | 0 <= i < |at| :: at[i] < |numbers|
    ensures |r| == |at| && forall i | 0 <= i < |at| :: r[i] == numbers[at[i]]
  {
    seq(|at|, i requires 0 <= i < |at| => numbers[at[i]])
  }

  lemma {:induction false} IncreasingAt(numbers: seq<nat>, i: nat, j: nat)
    requires Increasing(numbers) && i < j < |numbers|
    ensures numbers[i] < numbers[j]
  {
    if i + 1 < j {
      IncreasingAt(numbers, i, j - 1);
    }
    assert numbers[j - 1] < numbers[j - 1 + 1];
  }

  lemma PickIncreasing(numbers: seq<nat>, at: seq<nat>)
    requires Increasing(numbers) && Increasing(at) && forall i | 0 <= i < |at| :: at[i] < |numbers|
    ensures Increasing(Pick(numbers, at))
  {
    forall i | 0 <= i < |at| - 1 ensures Pick(numbers, at)[i] < Pick(numbers, at)[i + 1] {
      IncreasingAt(numbers, at[i], at[i + 1]);
    }
  }

  /** Numbers from the first arrival to arrival k that never arrived. */
  function NeverArrived(numbers: seq<nat>, k: nat): int
    requires k < |numbers|
  {
    numbers[k] as int - numbers[0] as int - k
  }

  /** What the PipeWire source counts as lost, against the true numbers of all packets that arrived. */
  ghost predicate LossExplained(p: PipeWire, numbers: seq<nat>)
    requires Increasing(numbers) && p.notedAt != [] && Increasing(p.notedAt)
    requires forall i | 0 <= i < |p.notedAt| :: p.notedAt[i] < |numbers|
  {
    var k := p.notedAt[|p.notedAt| - 1];
    var refused := p.overruns - (|numbers| - 1 - k);
    var gone := NeverArrived(numbers, k);
    var noted := Pick(numbers, p.notedAt);
    PickIncreasing(numbers, p.notedAt);
    Explains(p.tracker.lost, gone, refused, Undercount(noted), ShortGaps(noted))
  }

  /** Lost is gone plus refused less hidden, and so right about the wire exactly when as many are refused as hidden. */
  predicate Explains(lost: int, gone: int, refused: int, hidden: int, short: bool) {
    && refused >= 0 && hidden >= 0 && lost + hidden == gone + refused
    && (lost == gone <==> refused == hidden)
    && (lost == gone + refused <==> short)
    && (short ==> (lost == gone <==> refused == 0))
  }

  lemma ExplainsFrom(lost: int, gone: int, refused: int, hidden: int, short: bool)
    requires refused >= 0 && hidden >= 0 && lost + hidden == gone + refused && (hidden == 0 <==> short)
    ensures Explains(lost, gone, refused, hidden, short)
  {
  }

  lemma LossEquation(p: PipeWire, numbers: seq<nat>, noted: seq<nat>, k: nat)
    requires Placed(p) && p.tracker == NoteAll(p.noted) && |p.noted| == p.received && |p.arrived| == |numbers|
    requires noted != [] && Increasing(noted) && p.noted == Wire(noted) && k < |numbers|
    requires noted[0] == numbers[0] && noted[|noted| - 1] == numbers[k]
    ensures p.tracker.lost + Undercount(noted) == NeverArrived(numbers, k) + (p.overruns - (|numbers| - 1 - k))
  {
    LossAndUndercountIsSpan(noted);
  }

  lemma LossOfPlaced(p: PipeWire, numbers: seq<nat>)
    requires Placed(p) && p.tracker == NoteAll(p.noted) && |p.noted| == p.received
    requires numbers != [] && Increasing(numbers) && p.arrived == Wire(numbers)
    ensures p.notedAt != [] && (forall i | 0 <= i < |p.notedAt| :: p.notedAt[i] < |numbers|)
    ensures LossExplained(p, numbers)
  {
    NotedNumbers(p, numbers);
    var k, noted := p.notedAt[|p.notedAt| - 1], Pick(numbers, p.notedAt);
    PlacesLeftOver(p.notedAt, |p.notedAt| - 1);
    LossEquation(p, numbers, noted, k);
    UndercountIsNothingIff(noted);
    ExplainsFrom(p.tracker.lost, NeverArrived(numbers, k), p.overruns - (|numbers| - 1 - k), Undercount(noted),
                 ShortGaps(noted));
  }

  /**
    The PipeWire source takes its own overruns for losses of the wire. Over the
    true numbers of all packets that arrived, up to the last one noted: what it
    counts as lost is the numbers that never arrived plus the packets it
    refused, less what the gaps between the noted ones hide. It is right about
    the wire if and only if it refused as many as the gaps hide; with short
    gaps, if and only if it refused none.
   */
  lemma {:induction false} PipeWireLossIncludesOverruns(c: Config, events: seq<Event>, numbers: seq<nat>)
    requires Starts(c)
    requires numbers != [] && Increasing(numbers) && Exec(c, events).p.arrived == Wire(numbers)
    ensures var p := Exec(c, events).p;
            && p.notedAt != [] && Increasing(p.notedAt) && (forall i | 0 <= i < |p.notedAt| :: p.notedAt[i] < |numbers|)
            && LossExplained(p, numbers)
  {
    ExecInv(c, events);
    LossOfPlaced(Exec(c, events).p, numbers);
  }

  lemma NotedNumbers(p: PipeWire, numbers: seq<nat>)
    requires Placed(p) && numbers != [] && Increasing(numbers) && p.arrived == Wire(numbers)
    ensures p.notedAt != [] && p.notedAt[0] == 0 && forall i | 0 <= i < |p.notedAt| :: p.notedAt[i] < |numbers|
    ensures var noted := Pick(numbers, p.notedAt); Increasing(noted) && p.noted == Wire(noted)
  {
    PickIncreasing(numbers, p.notedAt);
    var noted := Pick(numbers, p.notedAt);
    forall i | 0 <= i < |noted| ensures p.noted[i] == Wire(noted)[i] {
      assert p.noted[i] == p.arrived[p.notedAt[i]];
    }
  }

  /** Increasing places leave at least as many behind them as their rank. */
  lemma {:induction false} PlacesLeftOver(at: seq<nat>, i: nat)
    requires Increasing(at) && i < |at|
    ensures at[i] >= i
  {
    if i > 0 {
      PlacesLeftOver(at, i - 1);
      assert at[i - 1] < at[i - 1 + 1];
    }
  }

  // ----- a run in which it does -----

  const FULL: nat := 8000

  /** Capturing these frames. */
  function Captures(frames: seq<seq<Byte>>): seq<Event> {
    seq(|frames|, i requires 0 <= i < |frames| => Captured(frames[i]))
  }

  function Counted(n: nat): seq<nat> { seq(n, i => i) }

  lemma CountedOnWire(n: nat)
    requires n <= TWO16
    ensures Wire(Counted(n)) == Counted(n)
  {
  }

  ghost predicate FilledTo(p: PipeWire, n: nat) {
    && p.channels == 2 && p.readPos == 0 && |p.log| == 12 * n && p.overruns == 0
    && p.tracker == (if n == 0 then FRESH else Tracker(true, n - 1, 0)) && p.arrived == Counted(n)
  }

  lemma NextPacket(p: PipeWire, n: nat, frame: seq<Byte>)
    requires n < FULL && FilledTo(p, n) && Carries(frame, n)
    ensures FilledTo(PipeWireStep(p, frame), n + 1)
  {
    PayloadFrames(frame);
    NoteConsecutive(p.tracker, n);
    assert Counted(n + 1) == Counted(n) + [n];
  }

  lemma NoteConsecutive(t: Tracker, n: nat)
    requires n < FULL && t == if n == 0 then FRESH else Tracker(true, n - 1, 0)
    ensures Note(t, n) == Tracker(true, n, 0)
  {
  }

  lemma ExecSnoc(c: Config, events: seq<Event>, e: Event)
    ensures Exec(c, events + [e]) == Next(Exec(c, events), e, c.room)
  {
    assert (events + [e])[..|events|] == events;
  }

  lemma CapturesSnoc(frames: seq<seq<Byte>>)
    requires frames != []
    ensures Captures(frames) == Captures(frames[..|frames| - 1]) + [Captured(frames[|frames| - 1])]
  {
  }

  lemma {:induction false} Filling(c: Config, frames: seq<seq<Byte>>)
    requires c.pipeWire == 2 && |frames| <= FULL && forall i | 0 <= i < |frames| :: Carries(frames[i], i)
    ensures FilledTo(Exec(c, Captures(frames)).p, |frames|)
  {
    if frames != [] {
      var n := |frames| - 1;
      Filling(c, frames[..n]);
      CapturesSnoc(frames);
      ExecSnoc(c, Captures(frames[..n]), Captured(frames[n]));
      NextPacket(Exec(c, Captures(frames[..n])).p, n, frames[n]);
    }
  }

  lemma Refuse(p: PipeWire, frame: seq<Byte>)
    requires FilledTo(p, FULL) && Carries(frame, FULL)
    ensures PipeWireStep(p, frame) == p.(overruns := 1, arrived := Counted(FULL + 1))
  {
    assert Counted(FULL + 1) == Counted(FULL) + [FULL];
  }

  lemma TakeNext(p: PipeWire, frame: seq<Byte>)
    requires p.channels == 2 && p.readPos == 12 && |p.log| == 12 * FULL && p.arrived == Counted(FULL + 1)
    requires p.tracker == Tracker(true, FULL - 1, 0) && p.overruns == 1 && Carries(frame, FULL + 1)
    ensures var q := PipeWireStep(p, frame);
            q.overruns == 1 && q.tracker.lost == 1 && q.arrived == Counted(FULL + 2)
  {
    assert Counted(FULL + 2) == Counted(FULL + 1) + [FULL + 1];
  }

  /**
    The ring takes 8000 packets of twelve frames, refuses one, and takes the
    next once a packet was read: packets 0 to 8001 all arrived, and one of them
    is counted as lost.
   */
  lemma PipeWireOverrunExample(c: Config) returns (events: seq<Event>)
    requires c.pipeWire == 2
    ensures var p := Exec(c, events).p; var numbers := Counted(FULL + 2);
            && p.arrived == Wire(numbers) && NeverArrived(numbers, FULL + 1) == 0
            && p.overruns == 1 && p.tracker.lost == 1
  {
    var frames := SomePackets(FULL + 2);
    var filled, refused := Captures(frames[..FULL]), Captured(frames[FULL]);
    Filling(c, frames[..FULL]);
    var p := Exec(c, filled).p;
    ExecSnoc(c, filled, refused);
    Refuse(p, frames[FULL]);
    ExecSnoc(c, filled + [refused], PipeWireReads(12));
    ExecSnoc(c, filled + [refused] + [PipeWireReads(12)], Captured(frames[FULL + 1]));
    events := filled + [refused] + [PipeWireReads(12)] + [Captured(frames[FULL + 1])];
    CountedOnWire(FULL + 2);
    TakeNext(p.(overruns := 1, arrived := Counted(FULL + 1), readPos := 12), frames[FULL + 1]);
  }
}

/** The PipeWire source of src/reacjack-pw.c: its per-packet step and its process callback. */
module PipeWireObject {
  import opened Audio
  import opened Packet
  import opened LossCounter
  import opened Frontends
  import opened ChannelStorage
  import P = PipeWireRing

  /** interleave_packet: frame by frame, channel by channel. */
  method InterleavePacket(interleaved: array<real>, planar: seq<seq<real>>, channels: nat, frames: nat)
    requires Fits(interleaved, frames, channels) && |planar| == channels
    requires forall c | 0 <= c < channels :: |planar[c]| == frames
    modifies interleaved
    ensures P.RowsOf(interleaved, channels, frames) == Transpose(planar, channels, frames)
  {
    for frame := 0 to frames
      invariant forall f, c | 0 <= f < frame && 0 <= c < channels :: Entry(interleaved, channels, f, c) == planar[c][f]
    {
      for ch := 0 to channels
        invariant forall f, c | 0 <= f < frame && 0 <= c < channels ::
                    Entry(interleaved, channels, f, c) == planar[c][f]
        invariant forall c | 0 <= c < ch :: Entry(interleaved, channels, frame, c) == planar[c][frame]
      {
        Put(interleaved, frames, channels, frame, ch, planar[ch][frame]);
      }
    }
    forall f | 0 <= f < frames
      ensures P.RowOf(interleaved, channels, f) == Transpose(planar, channels, frames)[f]
    {
    }
  }

  class ReacPw {
    const ring: P.Ring
    const channels: nat
    var received: nat
    var nonReac: nat
    var malformed: nat
    var overruns: nat
    var underruns: nat
    var tracker: Tracker
    ghost var log: Matrix
    ghost var noted: seq<nat>
    ghost var arrived: seq<nat>
    ghost var notedAt: seq<nat>

    ghost predicate Valid()
      reads this, ring, ring.samples
    {
      && Supported(channels) && ring.Valid() && ring.channels == channels && ring.capacity == PW_RING
      && Floats(ring.log, log)
    }

    ghost function State(): PipeWire
      reads this, ring
    {
      PipeWire(channels, log, ring.readPos, received, nonReac, malformed, overruns, tracker, noted, arrived, notedAt)
    }

    constructor (channels: nat)
      requires Supported(channels)
      ensures Valid() && fresh(ring) && fresh(ring.samples) && State() == NewPipeWire(channels) && underruns == 0
    {
      this.channels := channels;
      ring := new P.Ring(channels, PW_RING);
      received, nonReac, malformed, overruns, underruns, tracker := 0, 0, 0, 0, 0, FRESH;
      log, noted, arrived, notedAt := [], [], [], [];
    }

    method CapturePacket(frame: seq<Byte>)
      requires Valid()
      modifies this, ring, ring.samples
      ensures Valid() && State() == PipeWireStep(old(State()), frame) && underruns == old(underruns)
    {
      var parse := ParsePacket(frame);
      if parse == Rejected(NotReac) {
        nonReac := nonReac + 1;
        return;
      }
      if parse.Rejected? {
        malformed := malformed + 1;
        return;
      }
      PayloadFrames(frame);
      Accept(parse.view);
    }

    method Accept(v: View)
      requires Valid() && Supported(v.channels)
      requires |v.payload| == Slot(FRAMES_PER_PACKET, BYTES_PER_SAMPLE * v.channels, 0)
      modifies `malformed, `overruns, `tracker, `noted, `arrived, `notedAt, `received, `log, ring, ring.samples
      ensures Valid() && State() == PipeWireAccept(old(State()), v)
    {
      if v.channels != channels {
        malformed := malformed + 1;
        return;
      }
      var ok := Store(v);
      if !ok {
        overruns := overruns + 1;
        arrived := arrived + [v.counter];
        return;
      }
      NoteReceived(v.counter);
    }

    method NoteReceived(counter: nat)
      requires Valid()
      modifies `tracker, `noted, `arrived, `notedAt, `received
      ensures Valid()
      ensures State() == old(State()).(tracker := Note(old(tracker), counter), noted := old(noted) + [counter],
                                       received := old(received) + 1, arrived := old(arrived) + [counter],
                                       notedAt := old(notedAt) + [|old(arrived)|])
    {
      tracker := Note(tracker, counter);
      noted := noted + [counter];
      notedAt := notedAt + [|arrived|];
      arrived := arrived + [counter];
      received := received + 1;
    }

    /** Decode, interleave and write; without room nothing is stored. */
    method Store(v: View) returns (ok: bool)
      requires Valid() && v.channels == channels
      requires |v.payload| == Slot(FRAMES_PER_PACKET, BYTES_PER_SAMPLE * v.channels, 0)
      modifies `log, ring, ring.samples
      ensures Valid() && ring.readPos == old(ring.readPos)
      ensures ok <==> |old(log)| - ring.readPos + FRAMES_PER_PACKET <= PW_RING
      ensures log == if ok then old(log) + DecodeFrames(v.payload, v.channels) else old(log)
    {
      var planar := DecodePayload(v);
      var interleaved := new real[MAX_CHANNELS * FRAMES_PER_PACKET](_ => 0.0);
      SlotValue(FRAMES_PER_PACKET, channels, 0);
      InterleavePacket(interleaved, planar, channels, FRAMES_PER_PACKET);
      ok := ring.Write(interleaved, FRAMES_PER_PACKET);
      if ok {
        FloatsAppend(old(ring.log), log, Transpose(planar, channels, FRAMES_PER_PACKET),
                     DecodeFrames(v.payload, v.channels));
        log := log + DecodeFrames(v.payload, v.channels);
      }
    }

    /** on_process: at most `requested` frames when that is given; an underrun is counted when the ring has fewer. */
    method OnProcess(out: array<real>, maxFrames: nat, requested: nat) returns (frames: nat)
      requires Valid() && out != ring.samples && Fits(out, maxFrames, channels)
      modifies `underruns, ring`readPos, out
      ensures Valid() && frames == if requested > 0 then Min(requested, maxFrames) else maxFrames
      ensures Holding(out, channels, frames, ring.log, old(ring.readPos))
      ensures underruns == old(underruns) + if |log| - old(ring.readPos) < frames then 1 else 0
      ensures var taken := Min(|log| - old(ring.readPos), frames);
              State() == old(State()).(readPos := ReaderTakes(old(ring.readPos), |log|, taken))
    {
      frames := maxFrames;
      if requested > 0 && requested < frames {
        frames := requested;
      }
      SlotMonotone(frames, maxFrames, channels, 0);
      var readFrames := ring.Read(out, frames);
      if readFrames < frames {
        underruns := underruns + 1;
      }
    }
  }
}

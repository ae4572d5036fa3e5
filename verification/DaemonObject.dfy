/** The per-packet step of run_capture in src/reacjackd.c, over the daemon and the ring it owns. */
module DaemonObject {
  import opened Audio
  import opened Packet
  import opened LossCounter
  import opened Frontends
  import opened ChannelStorage
  import R = SharedRing

  class ReacDaemon {
    var channels: nat
    var ring: R.Ring?
    var received: nat
    var lost: nat
    var nonReac: nat
    var malformed: nat
    var last: nat
    var have: bool
    ghost var log: Matrix
    ghost var noted: seq<nat>

    ghost predicate Valid()
      reads this, ring, if ring == null then {} else {ring.samples}
    {
      && (ring == null ==> channels == 0 && log == [])
      && (ring != null ==>
            && Supported(channels) && ring.Valid() && ring.channels == channels && ring.capacity == DAEMON_RING
            && Floats(ring.log, log))
    }

    ghost function State(): Daemon
      reads this, ring
    {
      Daemon(channels, log, if ring == null then 0 else ring.readPos, received, nonReac, malformed,
             if ring == null then 0 else ring.overruns, if ring == null then 0 else ring.droppedPackets,
             if ring == null then 0 else ring.clockSeq, Tracker(have, last, lost), noted)
    }

    /**
      The daemon as it enters its capture loop: with a channel count from the
      command line the ring exists before the first packet.
     */
    constructor (configured: nat)
      requires Configured(configured)
      ensures Valid() && State() == NewDaemon(configured) && last == 0
      ensures ring == null || (fresh(ring) && fresh(ring.samples))
    {
      channels, received, lost, nonReac, malformed, last, have := configured, 0, 0, 0, 0, 0, false;
      log, noted := [], [];
      if configured == 0 {
        ring := null;
      } else {
        ring := new R.Ring(configured, DAEMON_RING);
      }
    }

    method NoteCounter(counter: nat)
      requires counter < TWO16 && last < TWO16
      modifies `last, `have, `lost
      ensures Tracker(have, last, lost) == Note(old(Tracker(have, last, lost)), counter)
    {
      if have {
        var expected := (last + 1) % TWO16;
        if counter != expected {
          var gap := (counter - expected) % TWO16;
          lost := lost + if gap < 32768 then gap else 1;
        }
      }
      last := counter;
      have := true;
    }

    /** ensure_ring; `creatable` is whether the shared memory can be had. */
    method EnsureRing(count: nat, creatable: bool) returns (ok: bool)
      requires Valid() && Supported(count)
      modifies `ring, `channels
      ensures ok <==> old(ring) != null || creatable
      ensures old(ring) != null ==> ring == old(ring) && channels == old(channels)
      ensures !ok ==> ring == null && channels == old(channels)
      ensures ok && old(ring) == null ==>
                && ring != null && fresh(ring) && fresh(ring.samples) && channels == count
      ensures Valid() && (ok ==> ring != null) && State() == old(State()).(channels := channels)
    {
      if ring != null {
        return true;
      }
      if !creatable {
        return false;
      }
      ring := new R.Ring(count, DAEMON_RING);
      channels := count;
      return true;
    }

    /** One captured frame. Returns false when the daemon gives up because it cannot create its ring. */
    method CapturePacket(frame: seq<Byte>, hostTime: nat, creatable: bool) returns (alive: bool)
      requires Valid() && last < TWO16
      modifies this, ring, if ring == null then {} else {ring.samples}
      ensures Valid() && last < TWO16
      ensures alive ==> State() == DaemonStep(old(State()), frame)
      ensures !alive ==> !creatable && old(ring) == null && State() == old(State())
    {
      var parse := ParsePacket(frame);
      if parse == Rejected(NotReac) {
        nonReac := nonReac + 1;
        return true;
      }
      if parse.Rejected? {
        malformed := malformed + 1;
        return true;
      }
      PayloadFrames(frame);
      alive := Accept(parse.view, hostTime, creatable);
    }

    method Accept(v: View, hostTime: nat, creatable: bool) returns (alive: bool)
      requires Valid() && last < TWO16 && Supported(v.channels) && v.counter < TWO16
      requires |v.payload| == Slot(FRAMES_PER_PACKET, BYTES_PER_SAMPLE * v.channels, 0)
      modifies this, ring, if ring == null then {} else {ring.samples}
      ensures Valid() && last < TWO16
      ensures alive ==> State() == DaemonAccept(old(State()), v)
      ensures !alive ==> !creatable && old(ring) == null && State() == old(State())
    {
      var created := EnsureRing(v.channels, creatable);
      if !created {
        return false;
      }
      if v.channels != channels {
        malformed := malformed + 1;
        return true;
      }
      Store(v, hostTime);
      NoteReceived(v.counter);
      return true;
    }

    method NoteReceived(counter: nat)
      requires Valid() && counter < TWO16 && last < TWO16
      modifies `last, `have, `lost, `noted, `received
      ensures Valid() && last < TWO16
      ensures State() == old(State()).(tracker := Note(old(State()).tracker, counter), noted := old(noted) + [counter],
                                       received := old(received) + 1)
    {
      NoteCounter(counter);
      noted := noted + [counter];
      received := received + 1;
    }

    /** Decode, write, and publish the clock or count the drop. */
    method Store(v: View, hostTime: nat)
      requires Valid() && ring != null && v.channels == channels
      requires |v.payload| == Slot(FRAMES_PER_PACKET, BYTES_PER_SAMPLE * v.channels, 0)
      modifies `log, ring, ring.samples
      ensures Valid() && ring == old(ring) && ring.readPos == old(ring.readPos)
      ensures old(ring.Fill()) + FRAMES_PER_PACKET > DAEMON_RING ==>
                && log == old(log) && ring.overruns == old(ring.overruns) + 1 && ring.clockSeq == old(ring.clockSeq)
                && ring.droppedPackets == old(ring.droppedPackets) + 1
      ensures old(ring.Fill()) + FRAMES_PER_PACKET <= DAEMON_RING ==>
                && log == old(log) + DecodeFrames(v.payload, v.channels)
                && ring.overruns == old(ring.overruns) && ring.droppedPackets == old(ring.droppedPackets)
                && ring.clockSeq == old(ring.clockSeq) + 2
                && ring.clockHostTime == hostTime && ring.clockSamplePos == ring.writePos
    {
      var planar := DecodePayload(v);
      var ok := ring.Write(planar, FRAMES_PER_PACKET);
      if !ok {
        ring.droppedPackets := ring.droppedPackets + 1;
      } else {
        FloatsAppend(old(ring.log), log, Transpose(planar, channels, FRAMES_PER_PACKET),
                     DecodeFrames(v.payload, v.channels));
        ring.PublishClock(hostTime, ring.writePos);
        log := log + DecodeFrames(v.payload, v.channels);
      }
    }
  }
}

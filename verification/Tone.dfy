/** run_tone of src/reacjackd.c: pacing a synthetic signal by the monotonic clock. */
module Tone {
  import opened Audio
  import R = SharedRing

  const TWO64: nat := 0x1_0000_0000_0000_0000
  const BILLION: nat := 1_000_000_000
  const RATE: nat := 48000
  const FRAMES: nat := 12

  function U64(x: int): nat { x % TWO64 }

  datatype TimeSpec = TimeSpec(sec: int, nsec: int)

  predicate Proper(t: TimeSpec) { 0 <= t.nsec < BILLION }

  function Nanoseconds(t: TimeSpec): int { t.sec * BILLION + t.nsec }

  /** elapsed_ns: the nanosecond difference may be negative and wraps before the sum wraps it back. */
  function ElapsedNs(start: TimeSpec, now: TimeSpec): nat {
    U64(U64(now.sec - start.sec) * BILLION + U64(now.nsec - start.nsec))
  }

  lemma ElapsedIsExact(start: TimeSpec, now: TimeSpec)
    requires Proper(start) && Proper(now) && 0 <= Nanoseconds(now) - Nanoseconds(start) < TWO64
    ensures ElapsedNs(start, now) == Nanoseconds(now) - Nanoseconds(start)
  {
    var seconds := now.sec - start.sec;
    assert 0 <= seconds < TWO64;
    assert U64(seconds) == seconds;
  }

  /** due_frames, whose product wraps. */
  function DueFrames(elapsed: nat): nat { U64(elapsed * RATE) / BILLION }

  /** The frames that are really due. */
  function TrueDue(elapsed: nat): nat { elapsed * 48000 / 1_000_000_000 }

  /** The pacing target is right if and only if the product fits in 64 bits, which it does for about 4.4 days. */
  lemma DueIsExactIffItFits(elapsed: nat)
    ensures DueFrames(elapsed) == TrueDue(elapsed) <==> elapsed * 48000 < 0x1_0000_0000_0000_0000
  {
    var x := elapsed * RATE;
    if x >= TWO64 {
      var rest := x - TWO64;
      assert U64(x) <= rest;
      assert rest / BILLION < x / BILLION;
      assert U64(x) / BILLION <= rest / BILLION;
    }
  }

  // ----- passes of the outer loop -----

  /** sent_frames after the catch-up loop of one pass. */
  function SentAfter(sent: nat, due: nat): nat { if sent <= due then sent + (due - sent) / FRAMES * FRAMES else sent }

  function RunPasses(elapsed: seq<nat>): nat {
    if elapsed == [] then 0 else SentAfter(RunPasses(elapsed[..|elapsed| - 1]), DueFrames(elapsed[|elapsed| - 1]))
  }

  ghost predicate NonDecreasing(elapsed: seq<nat>) {
    forall i | 0 <= i < |elapsed| - 1 :: elapsed[i] <= elapsed[i + 1]
  }

  lemma DueMonotone(a: nat, b: nat)
    requires a <= b
    ensures TrueDue(a) <= TrueDue(b)
  {
  }

  /** While the product fits, every pass ends with sent <= due < sent + 12. */
  lemma {:induction false} PacingHolds(elapsed: seq<nat>)
    requires elapsed != [] && NonDecreasing(elapsed) && elapsed[|elapsed| - 1] * RATE < TWO64
    ensures RunPasses(elapsed) <= TrueDue(elapsed[|elapsed| - 1]) < RunPasses(elapsed) + FRAMES
  {
    var n := |elapsed|;
    DueIsExactIffItFits(elapsed[n - 1]);
    if n > 1 {
      var front := elapsed[..n - 1];
      assert elapsed[n - 2] <= elapsed[n - 1];
      PacingHolds(front);
      DueMonotone(elapsed[n - 2], elapsed[n - 1]);
    }
  }

  ghost predicate Paced(elapsed: seq<nat>)
    requires elapsed != []
  {
    RunPasses(elapsed) <= TrueDue(elapsed[|elapsed| - 1]) < RunPasses(elapsed) + FRAMES
  }

  /** Runs whose last pass is at this uptime. */
  ghost predicate Reaches(elapsed: seq<nat>, uptime: nat) {
    elapsed != [] && NonDecreasing(elapsed) && elapsed[|elapsed| - 1] == uptime
  }

  /** A product that does not fit loses at least 2^64 / 10^9 frames. */
  lemma WrappedDueIsFarBehind(uptime: nat)
    requires uptime * RATE >= TWO64
    ensures DueFrames(uptime) + FRAMES <= TrueDue(uptime)
  {
    var x := uptime * RATE;
    var rest := x - TWO64;
    assert U64(x) <= rest;
    assert U64(x) / BILLION <= rest / BILLION;
    assert rest / BILLION + FRAMES <= x / BILLION;
  }

  lemma OnePass(uptime: nat)
    ensures RunPasses([uptime]) <= DueFrames(uptime)
  {
    assert [uptime][..0] == [];
  }

  /** Pacing is right for every run up to an uptime if and only if the product fits at that uptime. */
  lemma PacedIffItFits(uptime: nat)
    ensures (forall elapsed | Reaches(elapsed, uptime) :: Paced(elapsed)) <==> uptime * RATE < TWO64
  {
    if uptime * RATE < TWO64 {
      forall elapsed | Reaches(elapsed, uptime) ensures Paced(elapsed) { PacingHolds(elapsed); }
    } else {
      WrappedDueIsFarBehind(uptime);
      OnePass(uptime);
      assert Reaches([uptime], uptime) && !Paced([uptime]);
    }
  }

  const LAST_FRAME: nat := 18_446_744_073

  /** Beyond that the generator stalls: in no run does it ever send more than this many frames. */
  lemma {:induction false} GeneratorStalls(elapsed: seq<nat>)
    ensures RunPasses(elapsed) <= LAST_FRAME
  {
    if elapsed != [] {
      GeneratorStalls(elapsed[..|elapsed| - 1]);
    }
  }

  /** However often the loop passes, no run is paced once more than that is due. */
  lemma NeverPacedAgain(elapsed: seq<nat>, uptime: nat)
    requires Reaches(elapsed, uptime) && TrueDue(uptime) >= LAST_FRAME + FRAMES
    ensures !Paced(elapsed)
  {
    GeneratorStalls(elapsed);
  }

  /** A run of one pass, five days in, that is behind by more than a packet. */
  lemma StallExample()
    ensures var elapsed := 5 * 86400 * BILLION; RunPasses([elapsed]) + FRAMES <= TrueDue(elapsed)
  {
    GeneratorStalls([5 * 86400 * BILLION]);
  }

  // ----- the loop itself -----

  /** What happens around one packet: the host time it is published at, and the frames the reader takes after it. */
  datatype Moment = Moment(hostTime: nat, taken: nat)

  /** The ring's side of the pacing: every frame sent is in its history or was dropped with its packet. */
  ghost predicate Accounted(ring: R.Ring, sent: nat)
    reads ring
  {
    && ring.writePos + FRAMES * ring.droppedPackets == sent && ring.overruns == ring.droppedPackets
    && FRAMES * ring.clockSeq == 2 * ring.writePos
  }

  /** One packet, and whatever the reader takes before the next. */
  method SendPacket(ring: R.Ring, tone: seq<seq<real>>, moment: Moment, out: array<real>, ghost sent: nat)
    requires ring.Valid() && Accounted(ring, sent)
    requires ring.channels <= |tone| && forall ch | 0 <= ch < |tone| :: |tone[ch]| == FRAMES
    requires out != ring.samples && Fits(out, moment.taken, ring.channels)
    modifies ring, ring.samples, out
    ensures ring.Valid() && Accounted(ring, sent + FRAMES)
  {
    var ok := ring.Write(tone, FRAMES);
    if !ok {
      ring.droppedPackets := ring.droppedPackets + 1;
    } else {
      ring.PublishClock(moment.hostTime, ring.writePos);
    }
    var _ := ring.ReadInterleaved(out, ring.channels, moment.taken);
  }

  /** One catch-up loop: due packets are written, or dropped for lack of room, until less than a packet is due. */
  method CatchUp(ring: R.Ring, before: nat, due: nat, tone: seq<seq<real>>, moments: nat -> Moment, out: array<real>)
    returns (sent: nat)
    requires ring.Valid() && Accounted(ring, before)
    requires ring.channels <= |tone| && forall ch | 0 <= ch < |tone| :: |tone[ch]| == FRAMES
    requires out != ring.samples && forall n: nat :: Fits(out, moments(n).taken, ring.channels)
    modifies ring, ring.samples, out
    ensures ring.Valid() && sent == SentAfter(before, due) && Accounted(ring, sent)
    ensures before <= due ==> sent <= due < sent + FRAMES
  {
    sent := before;
    ghost var packets := 0;
    while sent + FRAMES <= due
      invariant ring.Valid() && Accounted(ring, sent)
      invariant sent == before + FRAMES * packets && (before <= due ==> sent <= due) && (packets > 0 ==> sent <= due)
    {
      SendPacket(ring, tone, moments(sent), out, sent);
      sent := sent + FRAMES;
      packets := packets + 1;
    }
    SentPackets(before, due, packets, sent);
  }

  lemma SentPackets(before: nat, due: nat, packets: nat, sent: nat)
    requires sent == before + FRAMES * packets && due < sent + FRAMES && (sent <= due || packets == 0)
    ensures sent == SentAfter(before, due)
  {
  }

  /**
    Passes of the outer loop on a fresh ring, with a reader taking frames after
    every packet: sent_frames is what RunPasses says, and every frame sent is in
    the ring's history or was dropped with its packet.
   */
  method RunTone(ring: R.Ring, elapsed: seq<nat>, tone: seq<seq<real>>, moments: nat -> Moment, out: array<real>)
    returns (sent: nat)
    requires ring.Valid() && Accounted(ring, 0)
    requires ring.channels <= |tone| && forall ch | 0 <= ch < |tone| :: |tone[ch]| == FRAMES
    requires out != ring.samples && forall n: nat :: Fits(out, moments(n).taken, ring.channels)
    modifies ring, ring.samples, out
    ensures ring.Valid() && sent == RunPasses(elapsed) && Accounted(ring, sent)
  {
    sent := 0;
    for k := 0 to |elapsed|
      invariant ring.Valid() && sent == RunPasses(elapsed[..k]) && Accounted(ring, sent)
    {
      assert elapsed[..k + 1][..k] == elapsed[..k];
      sent := CatchUp(ring, sent, DueFrames(elapsed[k]), tone, moments, out);
    }
    assert elapsed[..|elapsed|] == elapsed;
  }
}

/**
  The clock-drift runs of tests/test_shared_audio.c on the ring itself, for
  every pattern of writes and requests: the ring follows the regulator's
  arithmetic cycle by cycle, so its bounds are bounds on the real counters.
 */
module Drift {
  import opened Audio
  import opened Regulation
  import opened Band
  import R = SharedRing

  /** The caller's buffers hold `room` frames. */
  ghost predicate Sized(cycle: Cycle, room: nat) { cycle.written <= room < R.TWO32 && cycle.requested <= room }

  /** One write and one regulated read. */
  method DriftCycle(ring: R.Ring, cycle: Cycle, s: Setup, planar: seq<seq<real>>, out: array<real>, width: nat,
                    ghost room: nat)
    requires ring.Valid() && Sized(cycle, room) && ring.capacity == s.capacity
    requires s.target < R.TWO32 && s.tolerance < R.TWO32
    requires |planar| == ring.channels && forall c | 0 <= c < ring.channels :: |planar[c]| == room
    requires out != ring.samples && Fits(out, room, width)
    modifies ring, ring.samples, out
    ensures ring.Valid() && ring.Fill() == Step(old(ring.Fill()), cycle, s)
    ensures ring.overruns == old(ring.overruns) + if Overruns(old(ring.Fill()), cycle, s) then 1 else 0
    ensures ring.underruns == old(ring.underruns) + if Underruns(old(ring.Fill()), cycle, s) then 1 else 0
  {
    ghost var fill := ring.Fill();
    var _ := ring.Write(planar, cycle.written);
    assert ring.Fill() == AfterWrite(fill, cycle, s);
    SlotMonotone(cycle.requested, room, width, 0);
    CountedRead(ring, cycle.requested, s, out, width);
  }

  /** What one regulated read does to the fill and to the counters of the band. */
  method CountedRead(ring: R.Ring, frames: R.uint32, s: Setup, out: array<real>, width: nat)
    requires ring.Valid() && s.target < R.TWO32 && s.tolerance < R.TWO32
    requires out != ring.samples && Fits(out, frames, width)
    modifies ring, out
    ensures ring.Valid() && ring.Fill() == AfterRead(old(ring.Fill()), frames, s.target, s.tolerance)
    ensures ring.overruns == old(ring.overruns)
    ensures var c := Correct(old(ring.Fill()), frames, s.target, s.tolerance);
            var short := Consumed(old(ring.Fill()), frames, c) < frames - c.insert;
            ring.underruns == old(ring.underruns) + if short then 1 else 0
  {
    var _ := ring.ReadRegulated(out, width, frames, s.target, s.tolerance);
  }

  /** What the floor of the band asks of a run. */
  ghost predicate Fed(fill: nat, cycles: seq<Cycle>, s: Setup, most: nat) {
    && s.tolerance + most <= s.target && Floor(s, most) <= fill
    && forall i | 0 <= i < |cycles| ::
         && cycles[i].requested <= most && cycles[i].requested <= cycles[i].written + MAX_CORRECTION
         && cycles[i].written + (s.target - s.tolerance) <= s.capacity
  }

  /** What the ceiling of the band asks of a run. */
  ghost predicate Drained(fill: nat, cycles: seq<Cycle>, s: Setup) {
    forall i | 0 <= i < |cycles| ::
      && cycles[i].written <= cycles[i].requested + MAX_CORRECTION
      && Max(fill, Ceiling(s)) + cycles[i].written <= s.capacity
  }

  /**
    Any number of cycles: the fill is what the arithmetic says, a fed run counts
    no underrun and a drained run counts no overrun.
   */
  method DriftRun(ring: R.Ring, cycles: seq<Cycle>, s: Setup, planar: seq<seq<real>>, out: array<real>, width: nat,
                  ghost room: nat, ghost most: nat)
    requires ring.Valid() && ring.capacity == s.capacity && s.target < R.TWO32 && s.tolerance < R.TWO32
    requires forall i | 0 <= i < |cycles| :: Sized(cycles[i], room)
    requires |planar| == ring.channels && forall c | 0 <= c < ring.channels :: |planar[c]| == room
    requires out != ring.samples && Fits(out, room, width)
    modifies ring, ring.samples, out
    ensures ring.Valid() && ring.Fill() == Run(old(ring.Fill()), cycles, s)
    ensures Fed(old(ring.Fill()), cycles, s, most) ==> ring.underruns == old(ring.underruns)
    ensures Drained(old(ring.Fill()), cycles, s) ==> ring.overruns == old(ring.overruns)
  {
    ghost var fill := ring.Fill();
    for k := 0 to |cycles|
      invariant ring.Valid() && ring.Fill() == Run(fill, cycles[..k], s)
      invariant Fed(fill, cycles, s, most) ==> ring.underruns == old(ring.underruns)
      invariant Drained(fill, cycles, s) ==> ring.overruns == old(ring.overruns)
    {
      RunAppend(fill, cycles, k, s);
      if Fed(fill, cycles, s, most) {
        FloorInvariant(fill, cycles, s, most, k);
      }
      if Drained(fill, cycles, s) {
        CeilingInvariant(fill, cycles, s, k);
      }
      DriftCycle(ring, cycles[k], s, planar, out, width, room);
    }
    assert cycles[..|cycles|] == cycles;
  }
}

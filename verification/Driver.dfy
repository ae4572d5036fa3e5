/** src/coreaudio/ReacJackDriver.c: the IO entry points of the plug-in, over the state they update. */
module Driver {
  import opened Audio
  import opened Regulation
  import opened ClockProtocol
  import opened Timeline
  import R = SharedRing

  const CHANNELS: nat := 40
  const TARGET_FILL: R.uint32 := 4800
  const FILL_TOLERANCE: R.uint32 := 2400

  /** What get_clock gives for a ring that is open or not. */
  ghost function ReadingFrom(ring: R.Ring?): Reading
    reads if ring == null then {} else {ring}
  {
    if ring != null && ring.clockSeq > 0 && ring.clockSeq % 2 == 0
    then Fresh(Pair(ring.clockHostTime, ring.clockSamplePos)) else Nothing
  }

  class Device {
    const nominal: real
    var running: nat
    var anchorHost: nat
    var anchorSample: real
    var lastHost: nat
    var lastSample: real
    var slaved: real
    var seed: nat
    var refValid: bool
    var refHost: nat
    var refPos: nat
    var ring: R.Ring?

    ghost function State(): Clock
      reads this
    {
      Clock(nominal, anchorHost, anchorSample, lastHost, lastSample, slaved, seed, refValid, Pair(refHost, refPos))
    }

    constructor (nominal: real)
      ensures this.nominal == nominal && running == 0 && seed == 1 && ring == null
    {
      this.nominal := nominal;
      running, seed, ring := 0, 1, null;
      anchorHost, anchorSample, lastHost, lastSample, slaved := 0, 0.0, 0, 0.0, 0.0;
      refValid, refHost, refPos := false, 0, 0;
    }

    /** The first client starts a session: timeline at zero, nominal rate, ring sought to the target fill. */
    method StartIO(now: nat, found: R.Ring?) returns (ok: bool)
      requires running < TWO64
      requires found != null ==> found.Valid()
      modifies this, if found == null || running > 0 then {} else {found}
      ensures ok <==> old(running) < TWO64 - 1
      ensures running == old(running) + if ok then 1 else 0
      ensures ok && old(running) == 0 ==>
                && State() == Begin(old(State()), now) && ring == found
                && (found != null ==> found.Valid() && found.Fill() == Min(old(found.Fill()), 4800)
                                       && found.log == old(found.log) && found.resets == old(found.resets) + 1)
      ensures !ok || old(running) > 0 ==> State() == old(State()) && ring == old(ring)
    {
      if running == TWO64 - 1 {
        return false;
      }
      if running == 0 {
        anchorHost := now;
        anchorSample := 0.0;
        lastHost := anchorHost;
        lastSample := 0.0;
        slaved := nominal;
        refValid := false;
        ring := found;
        if found != null {
          var _ := found.SeekToFill(TARGET_FILL);
        }
      }
      running := running + 1;
      return true;
    }

    /** The last client to stop closes the ring; the timeline stays where it was. */
    method StopIO() returns (ok: bool)
      modifies this
      ensures ok <==> old(running) > 0
      ensures running == old(running) - if ok then 1 else 0
      ensures State() == old(State())
      ensures ring == if old(running) == 1 then null else old(ring)
    {
      if running == 0 {
        return false;
      }
      running := running - 1;
      if running == 0 && ring != null {
        ring := null;
      }
      return true;
    }

    method UpdateClockEstimate()
      modifies this
      ensures State() == Observe(old(State()), old(ReadingFrom(ring))) && ring == old(ring) && running == old(running)
    {
      if ring == null {
        return;
      }
      var ok, observedTime, observedPos := ring.GetClock();
      if !ok {
        return;
      }
      if !refValid || observedPos < refPos {
        refHost, refPos, refValid := observedTime, observedPos, true;
        return;
      }
      var windowFrames := observedPos - refPos;
      if windowFrames < MIN_OBSERVED {
        return;
      }
      var estimate := U64(observedTime - refHost) as real / windowFrames as real;
      var low := nominal * (1.0 - MAX_SKEW);
      var high := nominal * (1.0 + MAX_SKEW);
      if estimate < low {
        estimate := low;
      } else if estimate > high {
        estimate := high;
      }
      if Abs(estimate - slaved) <= slaved * DEADBAND {
        return;
      }
      anchorHost := lastHost;
      anchorSample := lastSample;
      slaved := estimate;
      seed := seed + 1;
    }

    method GetZeroTimeStamp(now: nat) returns (sampleTime: real, hostTime: nat, outSeed: nat)
      requires RateOk(State())
      modifies this
      ensures State() == Stamp(Observe(old(State()), old(ReadingFrom(ring))), now) && RateOk(State())
      ensures ring == old(ring) && running == old(running)
      ensures sampleTime == lastSample && hostTime == lastHost && outSeed == seed
    {
      UpdateClockEstimate();
      EmitStamp(now);
      sampleTime, hostTime, outSeed := lastSample, lastHost, seed;
    }

    method EmitStamp(now: nat)
      requires RateOk(State())
      modifies `lastHost, `lastSample
      ensures State() == Stamp(old(State()), now)
    {
      var ticksPerPeriod := TicksPerPeriod(slaved);
      var periods := Periods(anchorHost, ticksPerPeriod, now);
      var sample := SampleAfter(anchorSample, periods);
      var host := HostAfter(anchorHost, ticksPerPeriod, periods);
      if host < lastHost {
        host := lastHost;
        sample := lastSample;
      }
      lastHost := host;
      lastSample := sample;
    }

    /** The ReadInput operation: a regulated read of the ring, or silence when there is none. */
    method ReadInput(buffer: array<real>, frames: R.uint32)
      requires Fits(buffer, frames, CHANNELS)
      requires ring != null ==> ring.Valid() && ring.samples != buffer
      modifies buffer, if ring == null then {} else {ring}
      ensures ring != null ==> ring.Valid() && ring.log == old(if ring == null then [] else ring.log)
      ensures ring != null ==>
                var fill := old(if ring == null then 0 else ring.Fill());
                var pos := old(if ring == null then 0 else ring.readPos);
                && ring.Fill() == AfterRead(fill, frames, TARGET_FILL, FILL_TOLERANCE)
                && pos + fill == |ring.log|
                && var drop := if fill > 7200 then Min(fill - 4800, 8) else 0;
                   R.Plays(buffer, 40, frames, ring.log, pos, fill, 4800, 2400, ring.readPos - pos - drop)
      ensures ring == null ==>
                forall f, ch | 0 <= f < frames && 0 <= ch < CHANNELS :: Entry(buffer, CHANNELS, f, ch) == 0.0
    {
      if ring != null {
        var _ := ring.ReadRegulated(buffer, CHANNELS, frames, TARGET_FILL, FILL_TOLERANCE);
      } else {
        Zero(buffer, frames, CHANNELS);
      }
    }
  }
}

/** The drift regulator of shared_audio_read_interleaved_regulated. */
module Regulation {
  import opened Audio

  const MAX_CORRECTION: nat := 8

  /** Frames skipped before, or synthesized after, the inner read of one regulated call. */
  datatype Correction = Correction(drop: nat, insert: nat)

  /**
    The three branches of the regulator for the fill it measures. It corrects
    exactly outside the tolerance, never past the target, and falls short of
    the target only at its limits.
   */
  function Correct(fill: nat, frames: nat, target: nat, tolerance: nat): (c: Correction)
    ensures c.drop <= fill && c.insert <= frames
    ensures c.drop <= MAX_CORRECTION && c.insert <= MAX_CORRECTION
    ensures c.drop > 0 <==> fill > target + tolerance
    ensures c.insert > 0 <==> fill + tolerance < target && frames > 0
    ensures c.drop > 0 ==> target <= fill - c.drop && (target == fill - c.drop || c.drop == MAX_CORRECTION)
    ensures c.insert > 0 ==>
              && fill + c.insert <= target
              && (fill + c.insert == target || c.insert == MAX_CORRECTION || c.insert == frames)
  {
    if fill > target + tolerance then
      Correction(Min(fill - target, MAX_CORRECTION), 0)
    else if fill + tolerance < target && frames > 0 then
      Correction(0, Min(Min(target - fill, MAX_CORRECTION), frames))
    else
      Correction(0, 0)
  }

  /** Frames the inner read takes out of the ring. */
  function Consumed(fill: nat, frames: nat, c: Correction): nat
    requires c.drop <= fill && c.insert <= frames
  {
    Min(fill - c.drop, frames - c.insert)
  }

  /** Fill left by a regulated read. */
  function AfterRead(fill: nat, frames: nat, target: nat, tolerance: nat): nat {
    var c := Correct(fill, frames, target, tolerance);
    fill - c.drop - Consumed(fill, frames, c)
  }

  /**
    What a regulated read delivers: after the drop, the inner read with its
    silence, then `insert` copies of the last real frame. When the inner read
    underran, that silence sits between the last real frame and its copies;
    when it found nothing, the copies are silent too.
   */
  function RegulatedSample(log: seq<Frame>, readPos: nat, frames: nat, c: Correction, f: nat, ch: nat): real
    requires readPos + c.drop <= |log| && c.insert <= frames
  {
    var taken := Consumed(|log| - readPos, frames, c);
    if f < frames - c.insert then Sample(log, readPos + c.drop + f, ch)
    else if taken > 0 then Sample(log, readPos + c.drop + taken - 1, ch)
    else 0.0
  }

  // ----- "by duplicating the last real frame" -----

  /** From the first missing frame on, the output repeats the last real one. */
  ghost predicate RepeatsLastFrame(log: seq<Frame>, readPos: nat, frames: nat, c: Correction)
    requires readPos + c.drop <= |log| && c.insert <= frames
  {
    var taken := Consumed(|log| - readPos, frames, c);
    && taken > 0
    && forall f, ch | taken <= f < frames && 0 <= ch ::
         RegulatedSample(log, readPos, frames, c, f, ch) == Sample(log, readPos + c.drop + taken - 1, ch)
  }

  predicate Inserts(fill: nat, frames: nat, target: nat, tolerance: nat) { fill + tolerance < target && frames > 0 }

  function Ones(n: nat): (r: seq<Frame>)
    ensures |r| == n && forall i | 0 <= i < n :: r[i] == [1.0]
  {
    seq(n, _ => [1.0])
  }

  lemma OnesAreTornApart(fill: nat, frames: nat, c: Correction)
    requires c.drop == 0 && 0 < fill < frames - c.insert
    ensures !RepeatsLastFrame(Ones(fill), 0, frames, c)
  {
    assert RegulatedSample(Ones(fill), 0, frames, c, fill, 0) != Sample(Ones(fill), fill - 1, 0);
  }

  /** The synthesized frames themselves repeat the last real one. */
  ghost predicate CopiesLastFrame(log: seq<Frame>, readPos: nat, frames: nat, c: Correction)
    requires readPos + c.drop <= |log| && c.insert <= frames
  {
    var taken := Consumed(|log| - readPos, frames, c);
    && taken > 0
    && forall f, ch | frames - c.insert <= f < frames && 0 <= ch ::
         RegulatedSample(log, readPos, frames, c, f, ch) == Sample(log, readPos + c.drop + taken - 1, ch)
  }

  /** They do, whatever was written, if and only if the inner read asks for something and there is something. */
  lemma CopiesLastFrameIff(fill: nat, frames: nat, target: nat, tolerance: nat)
    requires Inserts(fill, frames, target, tolerance)
    ensures var c := Correct(fill, frames, target, tolerance);
            (forall log: seq<Frame>, pos: nat | pos + fill == |log| :: CopiesLastFrame(log, pos, frames, c))
            <==> 0 < fill && c.insert < frames
  {
    var c := Correct(fill, frames, target, tolerance);
    if !(0 < fill && c.insert < frames) {
      assert !CopiesLastFrame(Ones(fill), 0, frames, c);
    }
  }

  /** Plenty buffered, but eight frames or fewer requested: all of the output is synthesized, and silent. */
  lemma NothingToCopy()
    ensures var c := Correct(50, 8, 100, 0);
            && Inserts(50, 8, 100, 0) && c == Correction(0, 8) && Consumed(50, 8, c) == 0
            && forall f | 0 <= f < 8 :: RegulatedSample(Ones(50), 0, 8, c, f, 0) == 0.0
  {
  }

  /**
    In the insert branch the output repeats the last real frame, whatever was
    written, if and only if the inner read asks for something and for no more
    than the fill.
   */
  lemma RepeatsLastFrameIff(fill: nat, frames: nat, target: nat, tolerance: nat)
    requires Inserts(fill, frames, target, tolerance)
    ensures var c := Correct(fill, frames, target, tolerance);
            (forall log: seq<Frame>, pos: nat | pos + fill == |log| :: RepeatsLastFrame(log, pos, frames, c))
            <==> 0 < frames - c.insert <= fill
  {
    var c := Correct(fill, frames, target, tolerance);
    if !(0 < frames - c.insert <= fill) {
      if fill > 0 && frames > c.insert {
        OnesAreTornApart(fill, frames, c);
      }
      assert !RepeatsLastFrame(Ones(fill), 0, frames, c);
    }
  }

  /**
    One frame buffered, twenty requested: the real frame, eleven frames of
    silence, then the eight copies.
   */
  lemma CopiesAfterSilence()
    ensures var c := Correct(1, 20, 100, 0); var log := [[1.0]];
            && Inserts(1, 20, 100, 0) && c == Correction(0, 8) && Consumed(1, 20, c) == 1
            && RegulatedSample(log, 0, 20, c, 0, 0) == 1.0
            && (forall f | 1 <= f < 12 :: RegulatedSample(log, 0, 20, c, f, 0) == 0.0)
            && (forall f | 12 <= f < 20 :: RegulatedSample(log, 0, 20, c, f, 0) == 1.0)
  {
  }
}

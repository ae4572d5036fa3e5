/** reac_decode_samples_to_channels of src/reac_decode.c: nested loops with a moving input pointer. */
module Decoder {
  import opened Audio
  import opened Packet

  /** Frame f of the decoded stream is in place in every channel. */
  ghost predicate FrameWritten(outs: seq<array<real>>, m: seq<seq<Int24>>, f: nat)
    requires f < |m| && |m[f]| <= |outs| && forall c | 0 <= c < |m[f]| :: f < outs[c].Length
    reads outs
  {
    forall c | 0 <= c < |m[f]| :: outs[c][f] == ToFloat(m[f][c])
  }

  ghost predicate Distinct(outs: seq<array<real>>) { forall i, j | 0 <= i < j < |outs| :: outs[i] != outs[j] }

  lemma PairFloats(samples: seq<Byte>, at: nat)
    requires at + 6 <= |samples|
    ensures FloatBytes(ToFloat(PairAt(samples, at).0), samples[at + 3], samples[at], samples[at + 1])
    ensures FloatBytes(ToFloat(PairAt(samples, at).1), samples[at + 4], samples[at + 5], samples[at + 2])
  {
    PairBytes(samples, at);
    FloatOfSample(PairAt(samples, at).0, samples[at + 3], samples[at], samples[at + 1]);
    FloatOfSample(PairAt(samples, at).1, samples[at + 4], samples[at + 5], samples[at + 2]);
  }

  /** Channels 2p and 2p + 1 of frame f hold the samples of the six bytes at 3 * (f * channels + 2p). */
  ghost predicate PairFromBytes(outputs: seq<array?<real>>, samples: seq<Byte>, channels: nat, f: nat, p: nat)
    reads set i | 0 <= i < |outputs| && outputs[i] != null :: outputs[i]
  {
    var at := 3 * (f * channels + 2 * p);
    && at + 6 <= |samples| && 2 * p + 1 < |outputs|
    && outputs[2 * p] != null && outputs[2 * p + 1] != null
    && f < outputs[2 * p].Length && f < outputs[2 * p + 1].Length
    && FloatBytes(outputs[2 * p][f], samples[at + 3], samples[at], samples[at + 1])
    && FloatBytes(outputs[2 * p + 1][f], samples[at + 4], samples[at + 5], samples[at + 2])
  }

  /** The decoded matrix, byte by byte. */
  lemma MatrixBytes(samples: seq<Byte>, channels: nat, pairs: nat, f: nat, p: nat, at: nat)
    requires Supported(channels) && channels == 2 * pairs && p < pairs
    requires at == Slot(f, BYTES_PER_SAMPLE * channels, 0) + 6 * p
    requires Slot(f, BYTES_PER_SAMPLE * channels, 0) + BYTES_PER_SAMPLE * channels <= |samples|
    ensures f < |DecodeFrames(samples, channels)|
    ensures FloatBytes(ToFloat(DecodeFrames(samples, channels)[f][2 * p]),
                       samples[at + 3], samples[at], samples[at + 1])
    ensures FloatBytes(ToFloat(DecodeFrames(samples, channels)[f][2 * p + 1]),
                       samples[at + 4], samples[at + 5], samples[at + 2])
  {
    SampleOffset(samples, channels, pairs, f, p, Slot(f, BYTES_PER_SAMPLE * channels, 0));
    PairFloats(samples, at);
  }

  lemma DecodedPair(outputs: seq<array?<real>>, samples: seq<Byte>, channels: nat, pairs: nat, frames: nat,
                    f: nat, p: nat)
    requires Supported(channels) && channels == 2 * pairs <= |outputs| && p < pairs && f < frames
    requires |samples| == Slot(frames, BYTES_PER_SAMPLE * channels, 0) && |DecodeFrames(samples, channels)| == frames
    requires forall c | 0 <= c < channels :: outputs[c] != null && f < outputs[c].Length
    requires forall c | 0 <= c < channels :: outputs[c][f] == ToFloat(DecodeFrames(samples, channels)[f][c])
    ensures PairFromBytes(outputs, samples, channels, f, p)
  {
    SlotMonotone(f + 1, frames, BYTES_PER_SAMPLE * channels, 0);
    PointerClosedForm(f, channels, 2 * p);
    MatrixBytes(samples, channels, pairs, f, p, Slot(f, BYTES_PER_SAMPLE * channels, 0) + 6 * p);
  }

  method DecodePair(samples: seq<Byte>, at: nat, left: array<real>, right: array<real>, frame: nat)
    requires at + 6 <= |samples| && left != right && frame < left.Length && frame < right.Length
    modifies left, right
    ensures left[frame] == ToFloat(PairAt(samples, at).0) && right[frame] == ToFloat(PairAt(samples, at).1)
    ensures FloatBytes(left[frame], samples[at + 3], samples[at], samples[at + 1])
    ensures FloatBytes(right[frame], samples[at + 4], samples[at + 5], samples[at + 2])
    ensures forall f | 0 <= f < left.Length && f != frame :: left[f] == old(left[f])
    ensures forall f | 0 <= f < right.Length && f != frame :: right[f] == old(right[f])
  {
    var sample1 := Join24(samples[at + 3], samples[at], samples[at + 1]);
    var sample2 := Join24(samples[at + 4], samples[at + 5], samples[at + 2]);
    left[frame] := ToFloat(SignExtend24(sample1));
    right[frame] := ToFloat(SignExtend24(sample2));
    PairFloats(samples, at);
  }

  /** The same into channels ch and ch + 1 of the output; every other sample stays. */
  method DecodePairInto(samples: seq<Byte>, at: nat, outs: seq<array<real>>, ch: nat, frame: nat)
    requires at + 6 <= |samples| && ch + 1 < |outs| && Distinct(outs)
    requires forall c | 0 <= c < |outs| :: frame < outs[c].Length
    modifies outs
    ensures outs[ch][frame] == ToFloat(PairAt(samples, at).0) && outs[ch + 1][frame] == ToFloat(PairAt(samples, at).1)
    ensures forall c, f | 0 <= c < |outs| && 0 <= f < outs[c].Length && (f != frame || c < ch) ::
              outs[c][f] == old(outs[c][f])
  {
    DecodePair(samples, at, outs[ch], outs[ch + 1], frame);
  }

  /** Pair p of a frame whose bytes start at `start`. */
  ghost predicate PairHere(samples: seq<Byte>, start: nat, row: seq<Int24>, p: nat) {
    && 2 * p + 1 < |row| && start + 6 * p + 6 <= |samples|
    && row[2 * p] == PairAt(samples, start + 6 * p).0 && row[2 * p + 1] == PairAt(samples, start + 6 * p).1
  }

  /** The channel loop: the pointer moves six bytes for two channels. */
  method DecodeRow(samples: seq<Byte>, channels: nat, frame: nat, start: nat, outs: seq<array<real>>,
                   ghost row: seq<Int24>, ghost pairs: nat)
    returns (next: nat)
    requires |outs| == channels == |row| == 2 * pairs && Distinct(outs)
    requires forall c | 0 <= c < channels :: frame < outs[c].Length
    requires forall p | 0 <= p < pairs :: PairHere(samples, start, row, p)
    modifies outs
    ensures next == start + BYTES_PER_SAMPLE * channels
    ensures forall c | 0 <= c < channels :: outs[c][frame] == ToFloat(row[c])
    ensures forall c, f | 0 <= c < channels && 0 <= f < outs[c].Length && f != frame :: outs[c][f] == old(outs[c][f])
  {
    ghost var pair := 0;
    var ch := 0;
    next := start;
    while ch < channels
      invariant 0 <= pair <= pairs && ch == 2 * pair && next == start + 3 * ch
      invariant forall c | 0 <= c < ch :: outs[c][frame] == ToFloat(row[c])
      invariant forall c, f | 0 <= c < channels && 0 <= f < outs[c].Length && f != frame ::
                  outs[c][f] == old(outs[c][f])
    {
      assert PairHere(samples, start, row, pair);
      DecodePairInto(samples, next, outs, ch, frame);
      next := next + 6;
      ch := ch + 2;
      pair := pair + 1;
    }
  }

  lemma RowInPlace(samples: seq<Byte>, channels: nat, pairs: nat, frame: nat, start: nat)
    requires Supported(channels) && channels == 2 * pairs && frame < |DecodeFrames(samples, channels)|
    requires start == Slot(frame, BYTES_PER_SAMPLE * channels, 0) && start + BYTES_PER_SAMPLE * channels <= |samples|
    ensures forall p | 0 <= p < pairs :: PairHere(samples, start, DecodeFrames(samples, channels)[frame], p)
  {
    forall p | 0 <= p < pairs
      ensures PairHere(samples, start, DecodeFrames(samples, channels)[frame], p)
    {
      SampleOffset(samples, channels, pairs, frame, p, start);
    }
  }

  method DecodeOneFrame(samples: seq<Byte>, channels: nat, frame: nat, start: nat, outs: seq<array<real>>)
    returns (next: nat)
    requires Supported(channels) && |outs| == channels && Distinct(outs)
    requires forall c | 0 <= c < channels :: frame < outs[c].Length
    requires start == Slot(frame, BYTES_PER_SAMPLE * channels, 0) && start + BYTES_PER_SAMPLE * channels <= |samples|
    requires frame < |DecodeFrames(samples, channels)|
    modifies outs
    ensures next == start + BYTES_PER_SAMPLE * channels
    ensures FrameWritten(outs, DecodeFrames(samples, channels), frame)
    ensures forall c, f | 0 <= c < channels && 0 <= f < outs[c].Length && f != frame :: outs[c][f] == old(outs[c][f])
  {
    ghost var row := DecodeFrames(samples, channels)[frame];
    ghost var pairs := channels / 2;
    RowInPlace(samples, channels, pairs, frame, start);
    next := DecodeRow(samples, channels, frame, start, outs, row, pairs);
  }

  ghost function Expected(samples: seq<Byte>, channels: nat, frames: nat, outputs: seq<array?<real>>): Status
    requires Supported(channels) ==> channels <= |outputs|
  {
    if !Supported(channels) then UnsupportedChannelCount
    else if |samples| != Slot(frames, BYTES_PER_SAMPLE * channels, 0) then BadPayloadSize
    else if exists c :: 0 <= c < channels && outputs[c] == null then BadArgument
    else Ok
  }

  /** Each status by its condition; the first failed check counts. */
  lemma ExpectedExactly(samples: seq<Byte>, channels: nat, frames: nat, outputs: seq<array?<real>>)
    requires 0 < channels <= 40 && channels % 2 == 0 ==> channels <= |outputs|
    ensures var e := Expected(samples, channels, frames, outputs);
            var even := 0 < channels <= 40 && channels % 2 == 0; var fits := |samples| == channels * frames * 3;
            && (e == UnsupportedChannelCount <==> !even)
            && (e == BadPayloadSize <==> even && !fits)
            && (e == BadArgument <==> even && fits && exists c :: 0 <= c < channels && outputs[c] == null)
            && (e == Ok <==> even && fits && forall c | 0 <= c < channels :: outputs[c] != null)
  {
    PayloadBytesSlot(channels, frames);
  }

  /** The buffers the caller offers are distinct and long enough. */
  ghost predicate Buffers(outputs: seq<array?<real>>, frames: nat) {
    && (forall i, j | 0 <= i < j < |outputs| && outputs[i] != null :: outputs[i] != outputs[j])
    && (forall i | 0 <= i < |outputs| && outputs[i] != null :: frames <= outputs[i].Length)
  }

  /** Either every sample lands in its channel, or nothing is touched and the status says why. */
  method DecodeToChannels(samples: seq<Byte>, channels: nat, frames: nat, outputs: seq<array?<real>>)
    returns (status: Status)
    requires Supported(channels) ==> channels <= |outputs|
    requires Buffers(outputs, frames)
    modifies set i | 0 <= i < |outputs| && outputs[i] != null :: outputs[i]
    ensures status == Expected(samples, channels, frames, outputs)
    ensures status == Ok ==>
              && |DecodeFrames(samples, channels)| == frames
              && forall c, f | 0 <= c < channels && 0 <= f < frames ::
                   outputs[c] != null && outputs[c][f] == ToFloat(DecodeFrames(samples, channels)[f][c])
    ensures status == Ok ==>
              forall f, p | 0 <= f < frames && 0 <= p < channels / 2 :: PairFromBytes(outputs, samples, channels, f, p)
    ensures status != Ok ==>
              forall i | 0 <= i < |outputs| && outputs[i] != null :: outputs[i][..] == old(outputs[i][..])
  {
    status := Validate(samples, channels, frames, outputs);
    if status == Ok {
      var outs: seq<array<real>> := seq(channels, i requires 0 <= i < channels => outputs[i] as array<real>);
      FrameCount(samples, channels, frames);
      var _ := DecodeAll(samples, channels, frames, outs);
      assert forall c | 0 <= c < channels :: outs[c] == outputs[c];
      forall f, p | 0 <= f < frames && 0 <= p < channels / 2
        ensures PairFromBytes(outputs, samples, channels, f, p)
      {
        DecodedPair(outputs, samples, channels, channels / 2, frames, f, p);
      }
    }
  }

  method Validate(samples: seq<Byte>, channels: nat, frames: nat, outputs: seq<array?<real>>) returns (status: Status)
    requires Supported(channels) ==> channels <= |outputs|
    ensures status == Expected(samples, channels, frames, outputs)
  {
    if !Supported(channels) {
      return UnsupportedChannelCount;
    }
    PayloadBytesSlot(channels, frames);
    if |samples| != PayloadBytes(channels, frames) {
      return BadPayloadSize;
    }
    for ch := 0 to channels
      invariant forall c | 0 <= c < ch :: outputs[c] != null
    {
      if outputs[ch] == null {
        return BadArgument;
      }
    }
    return Ok;
  }

  /** The moving pointer ends exactly at the end of the input. */
  method DecodeAll(samples: seq<Byte>, channels: nat, frames: nat, outs: seq<array<real>>) returns (next: nat)
    requires Supported(channels) && |outs| == channels && Distinct(outs)
    requires forall c | 0 <= c < channels :: frames <= outs[c].Length
    requires |samples| == Slot(frames, BYTES_PER_SAMPLE * channels, 0) && |DecodeFrames(samples, channels)| == frames
    modifies outs
    ensures next == |samples|
    ensures forall c, f | 0 <= c < channels && 0 <= f < frames ::
              outs[c][f] == ToFloat(DecodeFrames(samples, channels)[f][c])
  {
    ghost var m := DecodeFrames(samples, channels);
    next := 0;
    for frame := 0 to frames
      invariant next == Slot(frame, BYTES_PER_SAMPLE * channels, 0)
      invariant forall c, f | 0 <= c < channels && 0 <= f < frame :: outs[c][f] == ToFloat(m[f][c])
    {
      SlotMonotone(frame + 1, frames, BYTES_PER_SAMPLE * channels, 0);
      next := DecodeOneFrame(samples, channels, frame, next, outs);
    }
  }

  /** The moving pointer in closed form. */
  lemma PointerClosedForm(frame: nat, channels: nat, ch: nat)
    ensures Slot(frame, BYTES_PER_SAMPLE * channels, 0) + 3 * ch == 3 * (frame * channels + ch)
  {
    SlotValue(frame, BYTES_PER_SAMPLE * channels, 0);
    assert frame * (BYTES_PER_SAMPLE * channels) == 3 * (frame * channels);
  }

  /** Every accepted packet is accepted by the decoder for twelve frames into buffers that exist. */
  lemma AcceptedPacketsDecode(frame: seq<Byte>, outputs: seq<array?<real>>)
    requires ParsePacket(frame).Parsed? && ParsePacket(frame).view.channels <= |outputs|
    requires forall c | 0 <= c < |outputs| :: outputs[c] != null
    ensures var v := ParsePacket(frame).view;
            Expected(v.payload, v.channels, FRAMES_PER_PACKET, outputs) == Ok
  {
    var v := ParsePacket(frame).view;
    SlotValue(FRAMES_PER_PACKET, BYTES_PER_SAMPLE * v.channels, 0);
  }
}

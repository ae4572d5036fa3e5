/** The channel_storage both decode-then-buffer frontends put a packet's samples into. */
module ChannelStorage {
  import opened Audio
  import opened Packet
  import Decoder

  /** The floats of a decoded stream. */
  ghost predicate Floats(log: seq<Frame>, m: seq<seq<Int24>>) {
    && |log| == |m|
    && (forall i | 0 <= i < |m| :: |log[i]| == |m[i]|)
    && (forall i, c | 0 <= i < |m| && 0 <= c < |m[i]| :: log[i][c] == ToFloat(m[i][c]))
  }

  /** Decodes a packet's payload into channel storage, as planar rows of twelve samples. */
  method DecodePayload(v: View) returns (planar: seq<seq<real>>)
    requires Supported(v.channels) && |v.payload| == Slot(FRAMES_PER_PACKET, BYTES_PER_SAMPLE * v.channels, 0)
    ensures |planar| == v.channels && forall c | 0 <= c < v.channels :: |planar[c]| == FRAMES_PER_PACKET
    ensures |DecodeFrames(v.payload, v.channels)| == FRAMES_PER_PACKET
    ensures Floats(Transpose(planar, v.channels, FRAMES_PER_PACKET), DecodeFrames(v.payload, v.channels))
  {
    var storage := Allocate(v.channels, FRAMES_PER_PACKET);
    FrameCount(v.payload, v.channels, FRAMES_PER_PACKET);
    var _ := Decoder.DecodeAll(v.payload, v.channels, FRAMES_PER_PACKET, storage);
    planar := Rows(storage);
  }

  method Allocate(channels: nat, n: nat) returns (storage: seq<array<real>>)
    ensures |storage| == channels && Decoder.Distinct(storage)
    ensures forall c | 0 <= c < channels :: fresh(storage[c]) && storage[c].Length == n
  {
    storage := [];
    for c := 0 to channels
      invariant |storage| == c && Decoder.Distinct(storage)
      invariant forall i | 0 <= i < c :: fresh(storage[i]) && storage[i].Length == n
    {
      var row := new real[n](_ => 0.0);
      storage := storage + [row];
    }
  }

  method Rows(storage: seq<array<real>>) returns (planar: seq<seq<real>>)
    ensures |planar| == |storage| && forall c | 0 <= c < |storage| :: planar[c] == storage[c][..]
  {
    planar := [];
    for c := 0 to |storage|
      invariant |planar| == c && forall i | 0 <= i < c :: planar[i] == storage[i][..]
    {
      planar := planar + [storage[c][..]];
    }
  }

  lemma FloatsAppend(log: seq<Frame>, m: seq<seq<Int24>>, block: seq<Frame>, d: seq<seq<Int24>>)
    requires Floats(log, m) && Floats(block, d)
    ensures Floats(log + block, m + d)
  {
  }
}

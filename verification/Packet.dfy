/** src/reac_decode.c: the packet parser and the shuffled 24-bit sample decoder. */
module Packet {
  import opened Audio

  type Byte = b: int | 0 <= b < 256
  type Int24 = v: int | -0x80_0000 <= v < 0x80_0000

  const ETHERTYPE: nat := 0x8819
  const MAX_CHANNELS: nat := 40
  const FRAMES_PER_PACKET: nat := 12
  const BYTES_PER_SAMPLE: nat := 3
  const END_MARKER_0: Byte := 0xc2
  const END_MARKER_1: Byte := 0xea
  const OVERHEAD: nat := 14 + 36
  const END_MARKER_BYTES: nat := 2
  const QUANTUM: nat := FRAMES_PER_PACKET * BYTES_PER_SAMPLE

  datatype Status = Ok | BadArgument | NotReac | ShortPacket | BadEndMarker | BadPayloadSize | UnsupportedChannelCount
  datatype View = View(counter: nat, channels: nat, payload: seq<Byte>)
  datatype Parse = Parsed(view: View) | Rejected(status: Status)

  predicate Supported(channels: nat) { 0 < channels <= MAX_CHANNELS && channels % 2 == 0 }

  function Join16(low: Byte, high: Byte): nat { low as int + high as int * 0x100 }
  function Join24(low: Byte, mid: Byte, high: Byte): (v: nat)
    ensures v < 0x100_0000
  {
    low as int + mid as int * 0x100 + high as int * 0x1_0000
  }

  /** reac_payload_bytes_for. */
  function PayloadBytes(channels: nat, frames: nat): nat { channels * frames * BYTES_PER_SAMPLE }

  lemma PayloadBytesSlot(channels: nat, frames: nat)
    ensures PayloadBytes(channels, frames) == Slot(frames, BYTES_PER_SAMPLE * channels, 0)
  {
    SlotValue(frames, BYTES_PER_SAMPLE * channels, 0);
    assert frames * (BYTES_PER_SAMPLE * channels) == channels * frames * BYTES_PER_SAMPLE;
  }

  // ----- the parser -----

  function ParsePacket(frame: seq<Byte>): Parse {
    if |frame| < OVERHEAD + END_MARKER_BYTES then Rejected(ShortPacket)
    else if Join16(frame[13], frame[12]) != ETHERTYPE then Rejected(NotReac)
    else if frame[|frame| - 2] != END_MARKER_0 || frame[|frame| - 1] != END_MARKER_1 then Rejected(BadEndMarker)
    else
      var payloadSize := |frame| - OVERHEAD - END_MARKER_BYTES;
      if payloadSize == 0 || payloadSize % QUANTUM != 0 then Rejected(BadPayloadSize)
      else
        var channels := payloadSize / QUANTUM;
        if !Supported(channels) then Rejected(UnsupportedChannelCount)
        else Parsed(View(Join16(frame[14], frame[15]), channels, frame[OVERHEAD..OVERHEAD + payloadSize]))
  }

  /** A REAC frame of c channels, by its length and its three fixed fields. */
  predicate IsReac(frame: seq<Byte>, c: nat) {
    && 0 < c <= 40 && c % 2 == 0 && |frame| == 52 + 36 * c
    && HasType(frame) && HasEnd(frame)
  }

  /** The EtherType, behind two addresses. */
  predicate HasType(frame: seq<Byte>)
    requires |frame| >= 52
  {
    frame[12] == 0x88 && frame[13] == 0x19
  }

  predicate HasEnd(frame: seq<Byte>)
    requires |frame| >= 52
  {
    frame[|frame| - 2] == 0xc2 && frame[|frame| - 1] == 0xea
  }

  /** Why a frame is rejected, by its bytes; the first reason counts. */
  lemma RejectedExactly(frame: seq<Byte>)
    ensures ParsePacket(frame) == Rejected(ShortPacket) <==> |frame| < 52
    ensures ParsePacket(frame) == Rejected(NotReac) <==> |frame| >= 52 && !HasType(frame)
    ensures ParsePacket(frame) == Rejected(BadEndMarker) <==> |frame| >= 52 && HasType(frame) && !HasEnd(frame)
    ensures ParsePacket(frame) == Rejected(BadPayloadSize)
       <==> |frame| >= 52 && HasType(frame) && HasEnd(frame) && (|frame| == 52 || (|frame| - 52) % 36 != 0)
    ensures ParsePacket(frame) == Rejected(UnsupportedChannelCount)
       <==> && |frame| > 52 && HasType(frame) && HasEnd(frame) && (|frame| - 52) % 36 == 0
            && ((|frame| - 52) / 36 > 40 || (|frame| - 52) / 36 % 2 == 1)
  {
  }

  /** Accepted exactly when it is a REAC frame; the channel count and the payload follow from the length alone. */
  lemma AcceptedExactly(frame: seq<Byte>)
    ensures ParsePacket(frame).Parsed? <==> exists c :: IsReac(frame, c)
    ensures forall c | IsReac(frame, c) ::
              ParsePacket(frame) == Parsed(View(Join16(frame[14], frame[15]), c, frame[50..50 + 36 * c]))
  {
    if ParsePacket(frame).Parsed? {
      assert IsReac(frame, ParsePacket(frame).view.channels);
    }
    forall c | IsReac(frame, c)
      ensures ParsePacket(frame) == Parsed(View(Join16(frame[14], frame[15]), c, frame[50..50 + 36 * c]))
    {
      assert (36 * c) % 36 == 0 && (36 * c) / 36 == c;
    }
  }

  // ----- the decoder -----

  /** uint32 with bits 24..31 filled from bit 23, read back as int32. */
  function SignExtend24(value: nat): (v: Int24)
    requires value < 0x100_0000
  {
    var extended := if value >= 0x80_0000 then value + 0xff00_0000 else value;
    if extended >= 0x8000_0000 then extended - 0x1_0000_0000 else extended
  }

  function ToFloat(v: int): real { v as real / 8388608.0 }

  /** Six bytes hold two samples, shuffled. */
  function PairAt(b: seq<Byte>, at: nat): (Int24, Int24)
    requires at + 6 <= |b|
  {
    (SignExtend24(Join24(b[at + 3], b[at], b[at + 1])), SignExtend24(Join24(b[at + 4], b[at + 5], b[at + 2])))
  }

  /** The signed 24-bit value of three bytes: the one in its range that they are congruent to. */
  predicate SampleBytes(v: int, low: Byte, mid: Byte, high: Byte) {
    -0x80_0000 <= v < 0x80_0000 && (v - (low as int + 0x100 * mid as int + 0x1_0000 * high as int)) % 0x100_0000 == 0
  }

  /** The same for the float a client gets, in units of 2^-23. */
  predicate FloatBytes(x: real, low: Byte, mid: Byte, high: Byte) {
    var scaled := x * 8388608.0;
    scaled == scaled.Floor as real && SampleBytes(scaled.Floor, low, mid, high)
  }

  lemma ExtendedBytes(low: Byte, mid: Byte, high: Byte)
    ensures SampleBytes(SignExtend24(Join24(low, mid, high)), low, mid, high)
  {
  }

  /** The layout on the wire: which byte of a pair is which byte of which sample. */
  lemma PairBytes(b: seq<Byte>, at: nat)
    requires at + 6 <= |b|
    ensures SampleBytes(PairAt(b, at).0, b[at + 3], b[at], b[at + 1])
    ensures SampleBytes(PairAt(b, at).1, b[at + 4], b[at + 5], b[at + 2])
  {
    ExtendedBytes(b[at + 3], b[at], b[at + 1]);
    ExtendedBytes(b[at + 4], b[at + 5], b[at + 2]);
  }

  lemma FloatOfSample(v: int, low: Byte, mid: Byte, high: Byte)
    requires SampleBytes(v, low, mid, high)
    ensures FloatBytes(ToFloat(v), low, mid, high)
  {
    assert ToFloat(v) * 8388608.0 == v as real;
  }

  function DecodeFrame(b: seq<Byte>, pairs: nat): (r: seq<Int24>)
    requires |b| == 6 * pairs
    decreases pairs
    ensures |r| == 2 * pairs
  {
    if pairs == 0 then [] else [PairAt(b, 0).0, PairAt(b, 0).1] + DecodeFrame(b[6..], pairs - 1)
  }

  /** The whole frames of a byte stream, in order. */
  function DecodeFrames(b: seq<Byte>, channels: nat): (r: seq<seq<Int24>>)
    requires Supported(channels)
    ensures forall f | 0 <= f < |r| :: |r[f]| == channels
  {
    var n := BYTES_PER_SAMPLE * channels;
    if |b| < n then [] else [DecodeFrame(b[..n], channels / 2)] + DecodeFrames(b[n..], channels)
  }

  lemma {:induction false} FrameCount(b: seq<Byte>, channels: nat, frames: nat)
    requires Supported(channels) && |b| == Slot(frames, BYTES_PER_SAMPLE * channels, 0)
    ensures |DecodeFrames(b, channels)| == frames
  {
    if frames > 0 {
      FrameCount(b[BYTES_PER_SAMPLE * channels..], channels, frames - 1);
    }
  }

  lemma PairShift(b: seq<Byte>, n: nat, at: nat)
    requires n + at + 6 <= |b|
    ensures PairAt(b[n..], at) == PairAt(b, n + at)
  {
  }

  lemma FrameTail(b: seq<Byte>, pairs: nat, i: nat)
    requires |b| == 6 * pairs && i + 2 < 2 * pairs
    ensures DecodeFrame(b, pairs)[i + 2] == DecodeFrame(b[6..], pairs - 1)[i]
  {
  }

  lemma FrameHead(b: seq<Byte>, pairs: nat)
    requires |b| == 6 * pairs && 0 < pairs
    ensures DecodeFrame(b, pairs)[0] == PairAt(b, 0).0 && DecodeFrame(b, pairs)[1] == PairAt(b, 0).1
  {
  }

  /** Inside a frame, pair p sits at byte 6 * p. */
  lemma {:induction false} PairOffset(b: seq<Byte>, pairs: nat, p: nat)
    requires |b| == 6 * pairs && p < pairs
    decreases p
    ensures DecodeFrame(b, pairs)[2 * p] == PairAt(b, 6 * p).0
    ensures DecodeFrame(b, pairs)[2 * p + 1] == PairAt(b, 6 * p).1
  {
    if p == 0 {
      FrameHead(b, pairs);
    } else {
      FrameTail(b, pairs, 2 * p - 2);
      FrameTail(b, pairs, 2 * p - 1);
      PairOffset(b[6..], pairs - 1, p - 1);
      PairShift(b, 6, 6 * p - 6);
    }
  }

  lemma FirstFrameOffset(b: seq<Byte>, channels: nat, pairs: nat, p: nat)
    requires Supported(channels) && channels == 2 * pairs && p < pairs && BYTES_PER_SAMPLE * channels <= |b|
    ensures |DecodeFrames(b, channels)| > 0
    ensures var r := DecodeFrames(b, channels)[0]; (r[2 * p], r[2 * p + 1]) == PairAt(b, 6 * p)
  {
    var head := b[..BYTES_PER_SAMPLE * channels];
    PairOffset(head, pairs, p);
    assert PairAt(head, 6 * p) == PairAt(b, 6 * p);
  }

  /** Channels 2p and 2p + 1 of frame f sit at byte 3 * (f * channels + 2p); `at` is where the frame starts. */
  lemma {:induction false} SampleOffset(b: seq<Byte>, channels: nat, pairs: nat, f: nat, p: nat, at: nat)
    requires Supported(channels) && channels == 2 * pairs && p < pairs
    requires at == Slot(f, BYTES_PER_SAMPLE * channels, 0) && at + BYTES_PER_SAMPLE * channels <= |b|
    ensures f < |DecodeFrames(b, channels)|
    ensures var r := DecodeFrames(b, channels)[f]; (r[2 * p], r[2 * p + 1]) == PairAt(b, at + 6 * p)
  {
    if f == 0 {
      FirstFrameOffset(b, channels, pairs, p);
    } else {
      var n := BYTES_PER_SAMPLE * channels;
      SampleOffset(b[n..], channels, pairs, f - 1, p, at - n);
      PairShift(b, n, at - n + 6 * p);
    }
  }

  // ----- the layout is a bijection -----

  /** The 24 low bits of a sample. */
  function Low24(v: Int24): nat { if v < 0 then v + 0x100_0000 else v }

  function EncodePair(x: Int24, y: Int24): (b: seq<Byte>)
    ensures |b| == 6
  {
    var v, w := Low24(x), Low24(y);
    [v / 0x100 % 0x100, v / 0x1_0000, w / 0x1_0000, v % 0x100, w % 0x100, w / 0x100 % 0x100]
  }

  /** Which byte of an encoded pair is which byte of which sample. */
  lemma EncodedBytes(x: Int24, y: Int24)
    ensures var b := EncodePair(x, y); SampleBytes(x, b[3], b[0], b[1]) && SampleBytes(y, b[4], b[5], b[2])
  {
    BytesSum(Low24(x));
    BytesSum(Low24(y));
  }

  lemma BytesSum(v: nat)
    requires v < 0x100_0000
    ensures v % 0x100 + 0x100 * (v / 0x100 % 0x100) + 0x1_0000 * (v / 0x1_0000) == v
  {
  }

  lemma PairRoundTrip(x: Int24, y: Int24)
    ensures PairAt(EncodePair(x, y), 0) == (x, y)
  {
    SplitOf24(x);
    SplitOf24(y);
  }

  lemma SplitOf24(x: Int24)
    ensures var v := Low24(x);
            && v < 0x100_0000 && SignExtend24(v) == x
            && Join24(v % 0x100, v / 0x100 % 0x100, v / 0x1_0000) == v
  {
  }

  lemma BytesRoundTrip(b: seq<Byte>)
    requires |b| == 6
    ensures EncodePair(PairAt(b, 0).0, PairAt(b, 0).1) == b
  {
    BytesOf24(b[3], b[0], b[1]);
    BytesOf24(b[4], b[5], b[2]);
  }

  lemma BytesOf24(low: Byte, mid: Byte, high: Byte)
    ensures var v := Join24(low, mid, high);
            && Low24(SignExtend24(v)) == v
            && v % 0x100 == low && v / 0x100 % 0x100 == mid && v / 0x1_0000 == high
  {
  }

  function EncodeFrame(frame: seq<Int24>, pairs: nat): (b: seq<Byte>)
    requires |frame| == 2 * pairs
    decreases pairs
    ensures |b| == 6 * pairs
  {
    if pairs == 0 then [] else EncodePair(frame[0], frame[1]) + EncodeFrame(frame[2..], pairs - 1)
  }

  predicate IsMatrix(m: seq<seq<Int24>>, channels: nat) { forall f | 0 <= f < |m| :: |m[f]| == channels }

  function EncodeFrames(m: seq<seq<Int24>>, channels: nat): (b: seq<Byte>)
    requires Supported(channels) && IsMatrix(m, channels)
    ensures |b| == Slot(|m|, BYTES_PER_SAMPLE * channels, 0)
  {
    if m == [] then [] else EncodeFrame(m[0], channels / 2) + EncodeFrames(m[1..], channels)
  }

  lemma PairPrefix(b: seq<Byte>, more: seq<Byte>)
    requires 6 <= |b|
    ensures PairAt(b + more, 0) == PairAt(b, 0)
  {
  }

  lemma {:induction false} FrameRoundTrip(frame: seq<Int24>, pairs: nat)
    requires |frame| == 2 * pairs
    decreases pairs
    ensures DecodeFrame(EncodeFrame(frame, pairs), pairs) == frame
  {
    if pairs > 0 {
      var head, tail := EncodePair(frame[0], frame[1]), EncodeFrame(frame[2..], pairs - 1);
      PairRoundTrip(frame[0], frame[1]);
      PairPrefix(head, tail);
      assert (head + tail)[6..] == tail;
      FrameRoundTrip(frame[2..], pairs - 1);
    }
  }

  /** Decoding undoes encoding for every sample matrix. */
  lemma {:induction false} FramesRoundTrip(m: seq<seq<Int24>>, channels: nat)
    requires Supported(channels) && IsMatrix(m, channels)
    ensures DecodeFrames(EncodeFrames(m, channels), channels) == m
  {
    if m != [] {
      var head, tail := EncodeFrame(m[0], channels / 2), EncodeFrames(m[1..], channels);
      assert (head + tail)[..|head|] == head && (head + tail)[|head|..] == tail;
      FrameRoundTrip(m[0], channels / 2);
      FramesRoundTrip(m[1..], channels);
    }
  }

  lemma {:induction false} FrameBytesRoundTrip(b: seq<Byte>, pairs: nat)
    requires |b| == 6 * pairs
    decreases pairs
    ensures EncodeFrame(DecodeFrame(b, pairs), pairs) == b
  {
    if pairs > 0 {
      PairPrefix(b[..6], b[6..]);
      assert b[..6] + b[6..] == b;
      BytesRoundTrip(b[..6]);
      FrameBytesRoundTrip(b[6..], pairs - 1);
      var x, y, rest := PairAt(b, 0).0, PairAt(b, 0).1, DecodeFrame(b[6..], pairs - 1);
      assert ([x, y] + rest)[2..] == rest;
    }
  }

  /** Encoding undoes decoding for every payload of whole frames: the layout is a bijection. */
  lemma {:induction false} PayloadBytesRoundTrip(b: seq<Byte>, channels: nat, frames: nat)
    requires Supported(channels) && |b| == Slot(frames, BYTES_PER_SAMPLE * channels, 0)
    decreases frames
    ensures EncodeFrames(DecodeFrames(b, channels), channels) == b
  {
    if frames > 0 {
      var n := BYTES_PER_SAMPLE * channels;
      FrameBytesRoundTrip(b[..n], channels / 2);
      PayloadBytesRoundTrip(b[n..], channels, frames - 1);
      assert b[..n] + b[n..] == b;
      assert DecodeFrames(b, channels)[1..] == DecodeFrames(b[n..], channels);
    }
  }

  /** Decoding commutes with concatenation at a frame boundary. */
  lemma {:induction false} DecodeConcat(a: seq<Byte>, b: seq<Byte>, channels: nat, frames: nat)
    requires Supported(channels) && |a| == Slot(frames, BYTES_PER_SAMPLE * channels, 0)
    decreases frames
    ensures DecodeFrames(a + b, channels) == DecodeFrames(a, channels) + DecodeFrames(b, channels)
  {
    if frames == 0 {
      assert a + b == b;
    } else {
      var n := BYTES_PER_SAMPLE * channels;
      assert (a + b)[..n] == a[..n] && (a + b)[n..] == a[n..] + b;
      DecodeConcat(a[n..], b, channels, frames - 1);
    }
  }

  // ----- a whole packet -----

  /** A packet with any addresses and any header bytes besides the counter. */
  function BuildPacket(addresses: seq<Byte>, counter: nat, header: seq<Byte>, m: seq<seq<Int24>>, channels: nat)
    : seq<Byte>
    requires |addresses| == 12 && counter < 0x1_0000 && |header| == 34
    requires Supported(channels) && IsMatrix(m, channels) && |m| == FRAMES_PER_PACKET
  {
    addresses + [0x88, 0x19] + [counter % 0x100, counter / 0x100] + header + EncodeFrames(m, channels)
    + [END_MARKER_0, END_MARKER_1]
  }

  lemma BuiltLayout(addresses: seq<Byte>, counter: nat, header: seq<Byte>, m: seq<seq<Int24>>, channels: nat)
    requires |addresses| == 12 && counter < 0x1_0000 && |header| == 34
    requires Supported(channels) && IsMatrix(m, channels) && |m| == FRAMES_PER_PACKET
    ensures var frame := BuildPacket(addresses, counter, header, m, channels);
            && IsReac(frame, channels) && Join16(frame[14], frame[15]) == counter
            && frame[50..50 + 36 * channels] == EncodeFrames(m, channels)
  {
    SlotValue(FRAMES_PER_PACKET, BYTES_PER_SAMPLE * channels, 0);
  }

  /** Building, parsing and decoding returns the counter, the channel count and every sample. */
  lemma PacketRoundTrip(addresses: seq<Byte>, counter: nat, header: seq<Byte>, m: seq<seq<Int24>>, channels: nat)
    requires |addresses| == 12 && counter < 0x1_0000 && |header| == 34
    requires Supported(channels) && IsMatrix(m, channels) && |m| == FRAMES_PER_PACKET
    ensures var p := ParsePacket(BuildPacket(addresses, counter, header, m, channels));
            && p.Parsed? && p.view.counter == counter && p.view.channels == channels
            && DecodeFrames(p.view.payload, channels) == m
  {
    var frame := BuildPacket(addresses, counter, header, m, channels);
    BuiltLayout(addresses, counter, header, m, channels);
    AcceptedExactly(frame);
    FramesRoundTrip(m, channels);
  }
}

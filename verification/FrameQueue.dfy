/**
  One FIFO, three algorithms: the split-copy planar read, the per-frame-modulo
  interleaved read and the chunked loops of the PipeWire ring, run over any
  sequence of operations, all produce the outputs of one bounded frame queue.
 */
module FrameQueue {
  import opened Audio
  import S = SharedRing
  import P = PipeWireRing
  import W = PipeWireObject
  import C = ChannelStorage

  datatype Op = Push(block: seq<Frame>) | Pull(n: nat)

  // ----- the queue -----

  /** A push that does not fit is refused as a whole; a pull takes what there is. */
  function Next(q: seq<Frame>, op: Op, capacity: nat): seq<Frame> {
    match op
    case Push(block) => if |q| + |block| <= capacity then q + block else q
    case Pull(n) => q[Min(|q|, n)..]
  }

  /** What a pull hands out, cut or padded with silence to n frames of `width` channels. */
  function Front(q: seq<Frame>, n: nat, width: nat): (r: seq<Frame>)
    ensures |r| == n && forall i | 0 <= i < n :: |r[i]| == width
  {
    seq(n, i requires 0 <= i => seq(width, c requires 0 <= c => Sample(q, i, c)))
  }

  /** The outputs of a run that starts with `q` queued. */
  function Outputs(q: seq<Frame>, ops: seq<Op>, capacity: nat, width: nat): seq<seq<Frame>>
    decreases |ops|
  {
    if ops == [] then []
    else Emitted(q, ops[0], width) + Outputs(Next(q, ops[0], capacity), ops[1..], capacity, width)
  }

  function Emitted(q: seq<Frame>, op: Op, width: nat): seq<seq<Frame>> {
    if op.Pull? then [Front(q, op.n, width)] else []
  }

  ghost predicate Proper(op: Op, channels: nat) {
    match op
    case Push(block) => |block| < S.TWO32 && forall i | 0 <= i < |block| :: |block[i]| == channels
    case Pull(n) => n < S.TWO32
  }

  /** A narrower or wider client hears the same samples in the channels it shares, and silence in the others. */
  ghost predicate Resized(a: seq<Frame>, wa: nat, b: seq<Frame>, wb: nat) {
    && |a| == |b|
    && (forall i | 0 <= i < |a| :: |a[i]| == wa && |b[i]| == wb)
    && (forall i, c | 0 <= i < |a| && 0 <= c < wb :: b[i][c] == if c < wa then a[i][c] else 0.0)
  }

  ghost predicate Narrow(q: seq<Frame>, channels: nat) { forall i | 0 <= i < |q| :: |q[i]| <= channels }

  lemma FrontResized(q: seq<Frame>, n: nat, channels: nat, width: nat)
    requires Narrow(q, channels)
    ensures Resized(Front(q, n, channels), channels, Front(q, n, width), width)
  {
  }

  lemma {:induction false} WidthOnlyResizes(q: seq<Frame>, ops: seq<Op>, capacity: nat, channels: nat, width: nat)
    requires Narrow(q, channels) && forall i | 0 <= i < |ops| :: Proper(ops[i], channels)
    ensures var a, b := Outputs(q, ops, capacity, channels), Outputs(q, ops, capacity, width);
            |a| == |b| && forall k | 0 <= k < |a| :: Resized(a[k], channels, b[k], width)
    decreases |ops|
  {
    if ops != [] {
      assert Proper(ops[0], channels);
      WidthOnlyResizes(Next(q, ops[0], capacity), ops[1..], capacity, channels, width);
      if ops[0].Pull? {
        FrontResized(q, ops[0].n, channels, width);
      }
    }
  }

  // ----- carrying blocks in and out of the rings' buffers -----

  function Columns(block: seq<Frame>, channels: nat): (planar: seq<seq<real>>)
    requires forall i | 0 <= i < |block| :: |block[i]| == channels
    ensures |planar| == channels && forall c | 0 <= c < channels :: |planar[c]| == |block|
    ensures Transpose(planar, channels, |block|) == block
  {
    var planar := seq(channels, c requires 0 <= c < channels =>
                      seq(|block|, i requires 0 <= i < |block| => block[i][c]));
    assert forall i | 0 <= i < |block| :: Transpose(planar, channels, |block|)[i] == block[i];
    planar
  }

  method CollectRows(buf: array<real>, width: nat, n: nat, ghost log: seq<Frame>, ghost pos: nat)
    returns (block: seq<Frame>)
    requires Fits(buf, n, width) && Holding(buf, width, n, log, pos) && pos <= |log|
    ensures block == Front(log[pos..], n, width)
  {
    block := [];
    ghost var front := Front(log[pos..], n, width);
    for i := 0 to n
      invariant block == front[..i]
    {
      var row: Frame := [];
      for c := 0 to width
        invariant row == front[i][..c]
      {
        var value := Get(buf, n, width, i, c);
        row := row + [value];
      }
      assert row == front[i];
      block := block + [row];
    }
  }

  method CollectColumns(outs: seq<array<real>>, n: nat, ghost log: seq<Frame>, ghost pos: nat)
    returns (block: seq<Frame>)
    requires pos <= |log| && forall c | 0 <= c < |outs| :: outs[c].Length == n
    requires forall c, i | 0 <= c < |outs| && 0 <= i < n :: outs[c][i] == Sample(log, pos + i, c)
    ensures block == Front(log[pos..], n, |outs|)
  {
    block := [];
    ghost var front := Front(log[pos..], n, |outs|);
    for i := 0 to n
      invariant block == front[..i]
    {
      var row: Frame := [];
      for c := 0 to |outs|
        invariant row == front[i][..c]
      {
        row := row + [outs[c][i]];
      }
      assert row == front[i];
      block := block + [row];
    }
  }

  // ----- the shared ring, read planar or interleaved -----

  ghost function Queued(ring: S.Ring): seq<Frame>
    requires ring.Valid()
    reads ring, ring.samples
  {
    ring.log[ring.readPos..]
  }

  method Push(ring: S.Ring, block: seq<Frame>)
    requires ring.Valid() && Proper(Op.Push(block), ring.channels)
    modifies ring, ring.samples
    ensures ring.Valid() && Queued(ring) == Next(old(Queued(ring)), Op.Push(block), ring.capacity)
  {
    var _ := ring.Write(Columns(block, ring.channels), |block|);
  }

  method PullPlanar(ring: S.Ring, n: S.uint32) returns (block: seq<Frame>)
    requires ring.Valid()
    modifies ring
    ensures ring.Valid() && Queued(ring) == Next(old(Queued(ring)), Pull(n), ring.capacity)
    ensures block == Front(old(Queued(ring)), n, ring.channels)
  {
    ghost var pos := ring.readPos;
    var outs := C.Allocate(ring.channels, n);
    var _ := ring.Read(outs, n);
    block := CollectColumns(outs, n, ring.log, pos);
  }

  method PullInterleaved(ring: S.Ring, n: nat, width: nat) returns (block: seq<Frame>)
    requires ring.Valid()
    modifies ring
    ensures ring.Valid() && Queued(ring) == Next(old(Queued(ring)), Pull(n), ring.capacity)
    ensures block == Front(old(Queued(ring)), n, width)
  {
    ghost var pos := ring.readPos;
    var out := new real[n * width](_ => 0.0);
    SlotValue(n, width, 0);
    var _ := ring.ReadInterleaved(out, width, n);
    block := CollectRows(out, width, n, ring.log, pos);
  }

  method StepPlanar(ring: S.Ring, op: Op) returns (emitted: seq<seq<Frame>>)
    requires ring.Valid() && Proper(op, ring.channels)
    modifies ring, ring.samples
    ensures ring.Valid() && Queued(ring) == Next(old(Queued(ring)), op, ring.capacity)
    ensures emitted == Emitted(old(Queued(ring)), op, ring.channels)
  {
    emitted := [];
    match op
    case Push(block) => Push(ring, block);
    case Pull(n) =>
      var block := PullPlanar(ring, n);
      emitted := [block];
  }

  /** Every run of planar reads on a fresh shared ring gives the queue's outputs. */
  method RunPlanar(ops: seq<Op>, channels: nat, capacity: nat) returns (outputs: seq<seq<Frame>>)
    requires 0 < channels < 0x1_0000 && 0 < capacity < S.TWO32
    requires forall i | 0 <= i < |ops| :: Proper(ops[i], channels)
    ensures outputs == Outputs([], ops, capacity, channels)
  {
    var ring := new S.Ring(channels, capacity);
    outputs := [];
    for k := 0 to |ops|
      invariant fresh(ring) && fresh(ring.samples) && ring.Valid()
      invariant ring.channels == channels && ring.capacity == capacity
      invariant outputs + Outputs(Queued(ring), ops[k..], capacity, channels) == Outputs([], ops, capacity, channels)
    {
      Unroll(outputs, Queued(ring), ops, k, capacity, channels);
      var emitted := StepPlanar(ring, ops[k]);
      outputs := outputs + emitted;
    }
  }

  /** One operation moves its output from what is still to come to what is done. */
  lemma Unroll(done: seq<seq<Frame>>, q: seq<Frame>, ops: seq<Op>, k: nat, capacity: nat, width: nat)
    requires k < |ops|
    ensures done + Outputs(q, ops[k..], capacity, width) ==
              (done + Emitted(q, ops[k], width)) + Outputs(Next(q, ops[k], capacity), ops[k + 1..], capacity, width)
  {
    assert ops[k..][1..] == ops[k + 1..];
    var rest := Outputs(Next(q, ops[k], capacity), ops[k + 1..], capacity, width);
    assert done + (Emitted(q, ops[k], width) + rest) == (done + Emitted(q, ops[k], width)) + rest;
  }

  method StepInterleaved(ring: S.Ring, op: Op, width: nat) returns (emitted: seq<seq<Frame>>)
    requires ring.Valid() && Proper(op, ring.channels)
    modifies ring, ring.samples
    ensures ring.Valid() && Queued(ring) == Next(old(Queued(ring)), op, ring.capacity)
    ensures emitted == Emitted(old(Queued(ring)), op, width)
  {
    emitted := [];
    match op
    case Push(block) => Push(ring, block);
    case Pull(n) =>
      var block := PullInterleaved(ring, n, width);
      emitted := [block];
  }

  /** So does every run of interleaved reads, for a client of any width. */
  method RunInterleaved(ops: seq<Op>, channels: nat, capacity: nat, width: nat) returns (outputs: seq<seq<Frame>>)
    requires 0 < channels < 0x1_0000 && 0 < capacity < S.TWO32
    requires forall i | 0 <= i < |ops| :: Proper(ops[i], channels)
    ensures outputs == Outputs([], ops, capacity, width)
  {
    var ring := new S.Ring(channels, capacity);
    outputs := [];
    for k := 0 to |ops|
      invariant fresh(ring) && fresh(ring.samples) && ring.Valid()
      invariant ring.channels == channels && ring.capacity == capacity
      invariant outputs + Outputs(Queued(ring), ops[k..], capacity, width) == Outputs([], ops, capacity, width)
    {
      Unroll(outputs, Queued(ring), ops, k, capacity, width);
      var emitted := StepInterleaved(ring, ops[k], width);
      outputs := outputs + emitted;
    }
  }

  // ----- the PipeWire ring -----

  ghost function QueuedPw(ring: P.Ring): seq<Frame>
    requires ring.Valid()
    reads ring, ring.samples
  {
    ring.log[ring.readPos..]
  }

  method PushPw(ring: P.Ring, block: seq<Frame>)
    requires ring.Valid() && Proper(Op.Push(block), ring.channels)
    modifies ring, ring.samples
    ensures ring.Valid() && QueuedPw(ring) == Next(old(QueuedPw(ring)), Op.Push(block), ring.capacity)
  {
    var interleaved := new real[|block| * ring.channels](_ => 0.0);
    SlotValue(|block|, ring.channels, 0);
    W.InterleavePacket(interleaved, Columns(block, ring.channels), ring.channels, |block|);
    var _ := ring.Write(interleaved, |block|);
  }

  method PullPw(ring: P.Ring, n: nat) returns (block: seq<Frame>)
    requires ring.Valid()
    modifies ring
    ensures ring.Valid() && QueuedPw(ring) == Next(old(QueuedPw(ring)), Pull(n), ring.capacity)
    ensures block == Front(old(QueuedPw(ring)), n, ring.channels)
  {
    ghost var pos := ring.readPos;
    var out := new real[n * ring.channels](_ => 0.0);
    SlotValue(n, ring.channels, 0);
    var _ := ring.Read(out, n);
    block := CollectRows(out, ring.channels, n, ring.log, pos);
  }

  method StepPw(ring: P.Ring, op: Op) returns (emitted: seq<seq<Frame>>)
    requires ring.Valid() && Proper(op, ring.channels)
    modifies ring, ring.samples
    ensures ring.Valid() && QueuedPw(ring) == Next(old(QueuedPw(ring)), op, ring.capacity)
    ensures emitted == Emitted(old(QueuedPw(ring)), op, ring.channels)
  {
    emitted := [];
    match op
    case Push(block) => PushPw(ring, block);
    case Pull(n) =>
      var block := PullPw(ring, n);
      emitted := [block];
  }

  /** And so does every run on a fresh PipeWire ring. */
  method RunPipeWire(ops: seq<Op>, channels: nat, capacity: nat) returns (outputs: seq<seq<Frame>>)
    requires 0 < channels && 0 < capacity
    requires forall i | 0 <= i < |ops| :: Proper(ops[i], channels)
    ensures outputs == Outputs([], ops, capacity, channels)
  {
    var ring := new P.Ring(channels, capacity);
    outputs := [];
    for k := 0 to |ops|
      invariant fresh(ring) && fresh(ring.samples) && ring.Valid()
      invariant ring.channels == channels && ring.capacity == capacity
      invariant outputs + Outputs(QueuedPw(ring), ops[k..], capacity, channels) == Outputs([], ops, capacity, channels)
    {
      Unroll(outputs, QueuedPw(ring), ops, k, capacity, channels);
      var emitted := StepPw(ring, ops[k]);
      outputs := outputs + emitted;
    }
  }
}

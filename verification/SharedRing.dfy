/**
  src/shared_audio.c: the single-writer/single-reader ring, as the object the
  C code updates in place. Samples are planar in one flat buffer, positions
  are monotone frame counts, and a ghost log keeps every frame ever written.
 */
module SharedRing {
  import opened Audio
  import opened Regulation

  const TWO32: nat := 0x1_0000_0000
  type uint32 = x: int | 0 <= x < TWO32

  /** The C cast to uint32_t. */
  function U32(x: int): uint32 { x % TWO32 }

  /** Rows lo to hi are all the sample at one position, or silent. */
  ghost predicate CopiesOf(out: array<real>, width: nat, lo: nat, hi: nat, log: seq<Frame>, pos: nat)
    reads out
  {
    forall f, ch | lo <= f < hi && 0 <= ch < width :: Entry(out, width, f, ch) == Sample(log, pos, ch)
  }

  ghost predicate SilentRows(out: array<real>, width: nat, lo: nat, hi: nat)
    reads out
  {
    forall f, ch | lo <= f < hi && 0 <= ch < width :: Entry(out, width, f, ch) == 0.0
  }

  /**
    What a regulated read that finds `fill` frames from `pos` on puts into the
    buffer and how many frames it takes, branch by branch.
   */
  ghost predicate Plays(out: array<real>, width: nat, frames: nat, log: seq<Frame>, pos: nat, fill: nat,
                        target: nat, tolerance: nat, taken: int)
    reads out
  {
    && (fill > target + tolerance ==>
          var drop := Min(fill - target, 8);
          taken == Min(fill - drop, frames) && Holding(out, width, frames, log, pos + drop))
    && (target <= fill + tolerance && fill <= target + tolerance ==>
          taken == Min(fill, frames) && Holding(out, width, frames, log, pos))
    && (fill + tolerance < target ==>
          var insert := Min(Min(target - fill, 8), frames);
          && taken == Min(fill, frames - insert) && Holding(out, width, frames - insert, log, pos)
          && (taken > 0 ==> CopiesOf(out, width, frames - insert, frames, log, pos + (taken - 1)))
          && (taken == 0 ==> SilentRows(out, width, frames - insert, frames)))
  }

  class Ring {
    const channels: nat
    const capacity: nat
    const samples: array<real>
    var writePos: nat
    var readPos: nat
    var underruns: nat
    var overruns: nat
    var droppedPackets: nat
    var resets: nat
    var insertedFrames: nat
    var droppedFrames: nat
    var clockSeq: nat
    var clockHostTime: nat
    var clockSamplePos: nat
    ghost var log: seq<Frame>

    /** Unread frames of the log sit in their cells, in every channel. */
    ghost predicate Holds(lo: nat, hi: nat)
      requires capacity > 0 && Fits(samples, channels, capacity) && hi <= |log|
      reads `log, samples
    {
      && (forall p | lo <= p < hi :: |log[p]| == channels)
      && (forall p, ch | lo <= p < hi && 0 <= ch < channels ::
            Entry(samples, capacity, ch, Cell(p, capacity)) == log[p][ch])
    }

    ghost predicate Valid()
      reads this, samples
    {
      && 0 < channels < 0x1_0000 && 0 < capacity < TWO32
      && Fits(samples, channels, capacity)
      && |log| == writePos
      && readPos <= writePos <= readPos + capacity
      && Holds(readPos, writePos)
    }

    ghost function Fill(): nat
      requires readPos <= writePos
      reads this
    {
      writePos - readPos
    }

    constructor (channels: nat, capacity: nat)
      requires 0 < channels < 0x1_0000 && 0 < capacity < TWO32
      ensures Valid() && fresh(samples)
      ensures this.channels == channels && this.capacity == capacity
      ensures log == [] && readPos == 0 && clockSeq == 0
      ensures underruns == overruns == droppedPackets == resets == insertedFrames == droppedFrames == 0
      ensures forall i | 0 <= i < samples.Length :: samples[i] == 0.0
    {
      this.channels := channels;
      this.capacity := capacity;
      samples := new real[channels * capacity](_ => 0.0);
      SlotValue(channels, capacity, 0);
      writePos, readPos, log := 0, 0, [];
      underruns, overruns, droppedPackets, resets := 0, 0, 0, 0;
      insertedFrames, droppedFrames := 0, 0;
      clockSeq, clockHostTime, clockSamplePos := 0, 0, 0;
    }

    method WritableFrames() returns (n: nat)
      requires Valid()
      ensures n == capacity - Fill()
    {
      var used := writePos - readPos;
      n := U32(capacity - U32(used));
    }

    method ReadableFrames() returns (n: nat)
      requires Valid()
      ensures n == Fill()
    {
      n := U32(writePos - readPos);
    }

    /** Wait-free for the writer: the sequence number is odd while the two words change. */
    method PublishClock(hostTime: nat, samplePos: nat)
      requires Valid()
      modifies `clockSeq, `clockHostTime, `clockSamplePos
      ensures Valid()
      ensures clockSeq == old(clockSeq) + 2 && clockHostTime == hostTime && clockSamplePos == samplePos
    {
      var n := clockSeq;
      clockSeq := n + 1;
      clockHostTime := hostTime;
      clockSamplePos := samplePos;
      clockSeq := n + 2;
    }

    /** Without a concurrent publisher: succeeds exactly when something was published and no update is half done. */
    method GetClock() returns (ok: bool, hostTime: nat, samplePos: nat)
      ensures ok <==> clockSeq > 0 && clockSeq % 2 == 0
      ensures ok ==> hostTime == clockHostTime && samplePos == clockSamplePos
    {
      hostTime, samplePos := 0, 0;
      for attempt := 0 to 16
        invariant attempt > 0 ==> clockSeq % 2 == 1
      {
        var n := clockSeq;
        if n == 0 {
          return false, 0, 0;
        }
        if n % 2 == 1 {
          continue;
        }
        var observedTime := clockHostTime;
        var observedPos := clockSamplePos;
        if clockSeq == n {
          return true, observedTime, observedPos;
        }
      }
      return false, 0, 0;
    }

    /** memcpy into one channel, inside one lap. */
    method CopyIn(ch: nat, cell: nat, src: seq<real>, from: nat, n: nat)
      requires Fits(samples, channels, capacity)
      requires ch < channels && cell + n <= capacity && from + n <= |src|
      modifies samples
      ensures forall x | cell <= x < cell + n :: Entry(samples, capacity, ch, x) == src[from + (x - cell)]
      ensures forall c, x | 0 <= c < channels && 0 <= x < capacity && !(c == ch && cell <= x < cell + n) ::
                Entry(samples, capacity, c, x) == old(Entry(samples, capacity, c, x))
    {
      for j := 0 to n
        invariant forall x | cell <= x < cell + j :: Entry(samples, capacity, ch, x) == src[from + (x - cell)]
        invariant forall c, x | 0 <= c < channels && 0 <= x < capacity && !(c == ch && cell <= x < cell + j) ::
                    Entry(samples, capacity, c, x) == old(Entry(samples, capacity, c, x))
      {
        Put(samples, channels, capacity, ch, cell + j, src[from + j]);
        assert Entry(samples, capacity, ch, cell + j) == src[from + j];
      }
    }

    /** One channel of a write, split at the wrap point. */
    method CopySplit(ch: nat, index: nat, src: seq<real>, frames: nat)
      requires Fits(samples, channels, capacity)
      requires ch < channels && index < capacity && frames <= capacity && frames <= |src|
      modifies samples
      ensures forall i | 0 <= i < frames :: Entry(samples, capacity, ch, SplitCell(index, i, capacity)) == src[i]
      ensures var first := Min(frames, capacity - index);
              forall c, x | 0 <= c < channels && 0 <= x < capacity &&
                            !(c == ch && (index <= x < index + first || x < frames - first)) ::
                Entry(samples, capacity, c, x) == old(Entry(samples, capacity, c, x))
    {
      var first := if frames < capacity - index then frames else capacity - index;
      CopyIn(ch, index, src, 0, first);
      if first < frames {
        CopyIn(ch, 0, src, first, frames - first);
      }
    }

    method CopyBlock(ch: nat, src: seq<real>, frames: nat)
      requires capacity > 0 && Fits(samples, channels, capacity)
      requires ch < channels && frames <= capacity && frames <= |src|
      modifies samples
      ensures forall i | 0 <= i < frames :: Entry(samples, capacity, ch, Cell(writePos + i, capacity)) == src[i]
      ensures forall p, c | 0 <= p < writePos && writePos + frames <= p + capacity && 0 <= c < channels ::
                Entry(samples, capacity, c, Cell(p, capacity)) == old(Entry(samples, capacity, c, Cell(p, capacity)))
      ensures forall c, x | 0 <= c < channels && 0 <= x < capacity && c != ch ::
                Entry(samples, capacity, c, x) == old(Entry(samples, capacity, c, x))
    {
      var index := CellIndex(writePos, capacity);
      CopySplit(ch, index, src, frames);
      forall i | 0 <= i < frames
        ensures Entry(samples, capacity, ch, Cell(writePos + i, capacity)) == src[i]
      {
        SplitCellIsCell(writePos, i, capacity);
      }
      forall p, c | 0 <= p < writePos && writePos + frames <= p + capacity && 0 <= c < channels
        ensures Entry(samples, capacity, c, Cell(p, capacity)) == old(Entry(samples, capacity, c, Cell(p, capacity)))
      {
        BlockAvoids(p, writePos, frames, capacity);
      }
    }

    method CopyChannels(planar: seq<seq<real>>, frames: nat)
      requires Valid() && Fill() + frames <= capacity
      requires channels <= |planar| && forall ch | 0 <= ch < channels :: frames <= |planar[ch]|
      modifies samples
      ensures Valid()
      ensures forall c, i | 0 <= c < channels && 0 <= i < frames ::
                Entry(samples, capacity, c, Cell(writePos + i, capacity)) == planar[c][i]
    {
      for ch := 0 to channels
        invariant Valid()
        invariant forall c, i | 0 <= c < ch && 0 <= i < frames ::
                    Entry(samples, capacity, c, Cell(writePos + i, capacity)) == planar[c][i]
      {
        CopyBlock(ch, planar[ch], frames);
      }
    }

    /** All or nothing: on lack of room only `overruns` changes. */
    method Write(planar: seq<seq<real>>, frames: uint32) returns (ok: bool)
      requires Valid()
      requires channels <= |planar| && forall ch | 0 <= ch < channels :: frames <= |planar[ch]|
      modifies this`writePos, this`overruns, this`log, samples
      ensures Valid()
      ensures ok <==> old(Fill()) + frames <= capacity
      ensures ok ==> log == old(log) + Transpose(planar, channels, frames) && overruns == old(overruns)
      ensures ok ==> forall i, ch | 0 <= i < frames && 0 <= ch < channels ::
                |log| == |old(log)| + frames && log[|old(log)| + i][ch] == planar[ch][i]
      ensures !ok ==> log == old(log) && overruns == old(overruns) + 1 && unchanged(samples)
    {
      var writable := WritableFrames();
      if frames > writable {
        overruns := overruns + 1;
        return false;
      }
      CopyChannels(planar, frames);
      ghost var block := Transpose(planar, channels, frames);
      ghost var base := writePos;
      log := log + block;
      writePos := writePos + frames;
      forall p, c | base <= p < writePos && 0 <= c < channels
        ensures Entry(samples, capacity, c, Cell(p, capacity)) == log[p][c]
      {
        assert p == base + (p - base);
      }
      return true;
    }

    /** The per-frame-modulo read into an interleaved buffer of another width. */
    method ReadInterleaved(out: array<real>, width: nat, frames: nat) returns (toRead: nat)
      requires Valid() && out != samples && Fits(out, frames, width)
      modifies `readPos, `underruns, out
      ensures Valid()
      ensures toRead == Min(old(Fill()), frames) && readPos == old(readPos) + toRead
      ensures underruns == old(underruns) + if toRead < frames then 1 else 0
      ensures Holding(out, width, frames, log, old(readPos))
      ensures forall r, c | frames <= r && 0 <= c < width :: Entry(out, width, r, c) == old(Entry(out, width, r, c))
    {
      var available := writePos - readPos;
      toRead := if available < frames then U32(available) else frames;
      CopyOut(out, frames, width, toRead);
      if toRead < frames {
        underruns := underruns + 1;
      }
      readPos := readPos + toRead;
    }

    method CopyOut(out: array<real>, frames: nat, width: nat, toRead: nat)
      requires Valid() && out != samples && Fits(out, frames, width)
      requires toRead == Min(Fill(), frames)
      modifies out
      ensures Holding(out, width, frames, log, readPos)
      ensures forall r, c | frames <= r && 0 <= c < width :: Entry(out, width, r, c) == old(Entry(out, width, r, c))
    {
      var copyChannels := if channels < width then channels else width;
      Zero(out, frames, width);
      for ch := 0 to copyChannels
        invariant forall f, c | 0 <= f < frames && 0 <= c < width ::
                    Entry(out, width, f, c) == if c < ch then Sample(log, readPos + f, c) else 0.0
        invariant forall r, c | frames <= r && 0 <= c < width :: Entry(out, width, r, c) == old(Entry(out, width, r, c))
      {
        CopyColumn(out, frames, width, toRead, ch);
      }
    }

    /** Fills column `ch`, which was silent, with the unread samples of that channel. */
    method CopyColumn(out: array<real>, frames: nat, width: nat, toRead: nat, ch: nat)
      requires Valid() && out != samples && Fits(out, frames, width)
      requires toRead == Min(Fill(), frames) && ch < channels && ch < width
      requires forall f | 0 <= f < frames :: Entry(out, width, f, ch) == 0.0
      modifies out
      ensures forall f | 0 <= f < frames :: Entry(out, width, f, ch) == Sample(log, readPos + f, ch)
      ensures forall r, c | 0 <= r && 0 <= c < width && (c != ch || frames <= r) ::
                Entry(out, width, r, c) == old(Entry(out, width, r, c))
    {
      for frame := 0 to toRead
        invariant forall f | 0 <= f < frame :: Entry(out, width, f, ch) == Sample(log, readPos + f, ch)
        invariant forall r, c | 0 <= r && 0 <= c < width && (c != ch || frame <= r) ::
                    Entry(out, width, r, c) == old(Entry(out, width, r, c))
      {
        var value := Fetch(readPos + frame, ch);
        Put(out, frames, width, frame, ch, value);
      }
    }

    method Fetch(pos: nat, ch: nat) returns (value: real)
      requires Valid() && readPos <= pos < writePos && ch < channels
      ensures value == Sample(log, pos, ch)
    {
      var cell := CellIndex(pos, capacity);
      value := FetchAt(cell, pos, ch);
    }

    /** The planar read, split at the wrap point. */
    method Read(outs: seq<array<real>>, frames: uint32) returns (toRead: nat)
      requires Valid() && |outs| == channels
      requires forall i | 0 <= i < channels :: outs[i] != samples && frames <= outs[i].Length
      requires forall i, j | 0 <= i < j < channels :: outs[i] != outs[j]
      modifies `readPos, `underruns, outs
      ensures Valid()
      ensures toRead == Min(old(Fill()), frames) && readPos == old(readPos) + toRead
      ensures underruns == old(underruns) + if toRead < frames then 1 else 0
      ensures forall ch, i | 0 <= ch < channels && 0 <= i < frames ::
                outs[ch][i] == Sample(log, old(readPos) + i, ch)
      ensures forall ch, i | 0 <= ch < channels && frames <= i < outs[ch].Length :: outs[ch][i] == old(outs[ch][i])
    {
      var available := writePos - readPos;
      toRead := if available < frames then U32(available) else frames;
      for ch := 0 to channels
        invariant unchanged(this) && unchanged(samples)
        invariant forall c, i | 0 <= c < ch && 0 <= i < frames ::
                    outs[c][i] == Sample(log, readPos + i, c)
        invariant forall c, i | 0 <= c < channels && 0 <= i < outs[c].Length && !(c < ch && i < frames) ::
                    outs[c][i] == old(outs[c][i])
      {
        ReadChannel(outs[ch], ch, frames, toRead);
      }
      if toRead < frames {
        underruns := underruns + 1;
      }
      readPos := readPos + toRead;
    }

    method ReadChannel(dst: array<real>, ch: nat, frames: nat, toRead: nat)
      requires Valid() && ch < channels && dst != samples && frames <= dst.Length && toRead == Min(Fill(), frames)
      modifies dst
      ensures forall i | 0 <= i < frames :: dst[i] == Sample(log, readPos + i, ch)
      ensures forall i | frames <= i < dst.Length :: dst[i] == old(dst[i])
    {
      var index := CellIndex(readPos, capacity);
      var first := if toRead < capacity - index then toRead else capacity - index;
      for i := 0 to toRead
        invariant forall j | 0 <= j < i :: dst[j] == Sample(log, readPos + j, ch)
        invariant forall j | i <= j < dst.Length :: dst[j] == old(dst[j])
      {
        SplitCellIsCell(readPos, i, capacity);
        dst[i] := FetchAt(if i < first then index + i else i - first, readPos + i, ch);
      }
      for i := toRead to frames
        invariant forall j | 0 <= j < i :: dst[j] == Sample(log, readPos + j, ch)
        invariant forall j | i <= j < dst.Length :: dst[j] == old(dst[j])
      {
        dst[i] := 0.0;
      }
    }

    method FetchAt(cell: nat, ghost pos: nat, ch: nat) returns (value: real)
      requires Valid() && readPos <= pos < writePos && ch < channels && cell == Cell(pos, capacity)
      ensures value == Sample(log, pos, ch)
    {
      value := Get(samples, channels, capacity, ch, cell);
    }

    /** Only ever moves the read position forward. */
    method SeekToFill(target: uint32) returns (newFill: nat)
      requires Valid()
      modifies `readPos, `resets
      ensures Valid()
      ensures newFill == Min(old(Fill()), target) == Fill()
      ensures readPos >= old(readPos) && resets == old(resets) + 1
    {
      var fill := writePos - readPos;
      newFill := if fill < target then U32(fill) else target;
      readPos := writePos - newFill;
      resets := resets + 1;
    }

    /** A read that nudges the fill towards the target by at most eight frames. */
    method ReadRegulated(out: array<real>, width: nat, frames: uint32, target: uint32, tolerance: uint32)
      returns (taken: nat)
      requires Valid() && out != samples && Fits(out, frames, width)
      modifies `readPos, `underruns, `insertedFrames, `droppedFrames, out
      ensures Valid()
      ensures Served(out, width, frames, Correct(old(Fill()), frames, target, tolerance), taken)
      ensures Fill() == AfterRead(old(Fill()), frames, target, tolerance)
      ensures Plays(out, width, frames, log, old(readPos), old(Fill()), target, tolerance, taken)
      ensures Moved(frames, target, tolerance, taken)
    {
      var fill := writePos - readPos;
      if fill > target + tolerance {
        taken := ReadAbove(out, width, frames, target, tolerance);
      } else if fill + tolerance < target && frames > 0 {
        taken := ReadBelow(out, width, frames, target, tolerance);
      } else {
        taken := ReadWithin(out, width, frames, target, tolerance);
      }
    }

    /** Where the read position and the counters go, in numbers. */
    twostate predicate Moved(frames: nat, target: nat, tolerance: nat, taken: nat)
      requires old(readPos) <= old(writePos)
      reads this
    {
      var fill := old(Fill());
      var drop := if fill > target + tolerance then Min(fill - target, 8) else 0;
      var insert := if fill + tolerance < target && taken > 0 then Min(Min(target - fill, 8), frames) else 0;
      && readPos == old(readPos) + drop + taken
      && droppedFrames == old(droppedFrames) + drop && insertedFrames == old(insertedFrames) + insert
    }

    method ReadAbove(out: array<real>, width: nat, frames: uint32, target: uint32, tolerance: uint32)
      returns (taken: nat)
      requires Valid() && out != samples && Fits(out, frames, width) && Fill() > target + tolerance
      modifies `readPos, `underruns, `insertedFrames, `droppedFrames, out
      ensures Valid()
      ensures Served(out, width, frames, Correct(old(Fill()), frames, target, tolerance), taken)
      ensures Plays(out, width, frames, log, old(readPos), old(Fill()), target, tolerance, taken)
      ensures Moved(frames, target, tolerance, taken)
    {
      var drop := Surplus(writePos - readPos, target);
      taken := DropThenRead(out, width, frames, drop);
    }

    method ReadBelow(out: array<real>, width: nat, frames: uint32, target: uint32, tolerance: uint32)
      returns (taken: nat)
      requires Valid() && out != samples && Fits(out, frames, width) && Fill() + tolerance < target && frames > 0
      modifies `readPos, `underruns, `insertedFrames, `droppedFrames, out
      ensures Valid()
      ensures Served(out, width, frames, Correct(old(Fill()), frames, target, tolerance), taken)
      ensures Plays(out, width, frames, log, old(readPos), old(Fill()), target, tolerance, taken)
      ensures Moved(frames, target, tolerance, taken)
    {
      var insert := Shortfall(writePos - readPos, frames, target);
      taken := ReadThenInsert(out, width, frames, insert);
    }

    method ReadWithin(out: array<real>, width: nat, frames: uint32, target: uint32, tolerance: uint32)
      returns (taken: nat)
      requires Valid() && out != samples && Fits(out, frames, width)
      requires Fill() <= target + tolerance && (target <= Fill() + tolerance || frames == 0)
      modifies `readPos, `underruns, `insertedFrames, `droppedFrames, out
      ensures Valid()
      ensures Served(out, width, frames, Correct(old(Fill()), frames, target, tolerance), taken)
      ensures Plays(out, width, frames, log, old(readPos), old(Fill()), target, tolerance, taken)
      ensures Moved(frames, target, tolerance, taken)
    {
      taken := ReadUncorrected(out, width, frames);
    }

    method ReadUncorrected(out: array<real>, width: nat, frames: nat) returns (taken: nat)
      requires Valid() && out != samples && Fits(out, frames, width)
      modifies `readPos, `underruns, out
      ensures Valid() && Served(out, width, frames, Correction(0, 0), taken)
      ensures Holding(out, width, frames, log, old(readPos))
    {
      taken := ReadInterleaved(out, width, frames);
    }

    /** The complete effect of a regulated read that applies correction c. */
    twostate predicate Served(out: array<real>, width: nat, frames: nat, c: Correction, taken: nat)
      requires old(Valid()) && Fits(out, frames, width) && unchanged(`log)
      requires c.drop <= old(Fill()) && c.insert <= frames
      reads this, out
    {
      && taken == Consumed(old(Fill()), frames, c)
      && readPos == old(readPos) + c.drop + taken
      && droppedFrames == old(droppedFrames) + c.drop
      && insertedFrames == old(insertedFrames) + (if taken > 0 then c.insert else 0)
      && underruns == old(underruns) + (if taken < frames - c.insert then 1 else 0)
      && (forall f, ch | 0 <= f < frames && 0 <= ch < width ::
            Entry(out, width, f, ch) == RegulatedSample(log, old(readPos), frames, c, f, ch))
    }

    method DropThenRead(out: array<real>, width: nat, frames: nat, drop: nat) returns (taken: nat)
      requires Valid() && out != samples && Fits(out, frames, width) && drop <= Fill()
      modifies `readPos, `underruns, `droppedFrames, out
      ensures Valid() && Served(out, width, frames, Correction(drop, 0), taken)
      ensures Holding(out, width, frames, log, old(readPos) + drop)
    {
      readPos := readPos + drop;
      droppedFrames := droppedFrames + drop;
      taken := ReadInterleaved(out, width, frames);
    }

    method ReadThenInsert(out: array<real>, width: nat, frames: nat, insert: nat) returns (taken: nat)
      requires Valid() && out != samples && Fits(out, frames, width) && insert <= frames
      modifies `readPos, `underruns, `insertedFrames, out
      ensures Valid() && Served(out, width, frames, Correction(0, insert), taken)
      ensures Holding(out, width, frames - insert, log, old(readPos))
      ensures taken > 0 ==> CopiesOf(out, width, frames - insert, frames, log, old(readPos) + (taken - 1))
      ensures taken == 0 ==> SilentRows(out, width, frames - insert, frames)
    {
      SlotMonotone(frames - insert, frames, width, 0);
      ghost var base := readPos;
      taken := ReadInterleaved(out, width, frames - insert);
      InsertTail(out, width, frames, insert, taken, log, base);
      if taken > 0 {
        insertedFrames := insertedFrames + insert;
      }
    }
  }

  /** The inner read is in place; after its tail is filled, so is the regulated read. */
  method InsertTail(out: array<real>, width: nat, frames: nat, insert: nat, taken: nat,
                    ghost log: seq<Frame>, ghost base: nat)
    requires Fits(out, frames, width) && insert <= frames && base <= |log|
    requires taken == Min(|log| - base, frames - insert)
    requires Holding(out, width, frames - insert, log, base)
    modifies out
    ensures forall f, ch | 0 <= f < frames && 0 <= ch < width ::
              Entry(out, width, f, ch) == RegulatedSample(log, base, frames, Correction(0, insert), f, ch)
    ensures Holding(out, width, frames - insert, log, base)
    ensures taken > 0 ==> CopiesOf(out, width, frames - insert, frames, log, base + (taken - 1))
    ensures taken == 0 ==> SilentRows(out, width, frames - insert, frames)
  {
    if taken > 0 {
      ghost var last, pos := taken - 1, base + (taken - 1);
      assert forall c | 0 <= c < width :: Entry(out, width, last, c) == Sample(log, pos, c);
    }
    FillTail(out, width, frames, insert, taken);
  }

  method Surplus(fill: nat, target: uint32) returns (drop: nat)
    requires target <= fill < TWO32
    ensures drop == Min(fill - target, MAX_CORRECTION)
  {
    var excess := U32(fill - target);
    drop := if excess < MAX_CORRECTION then excess else MAX_CORRECTION;
  }

  method Shortfall(fill: nat, frames: uint32, target: uint32) returns (insert: nat)
    requires fill <= target
    ensures insert == Min(Min(target - fill, MAX_CORRECTION), frames)
  {
    var deficit := U32(target - fill);
    insert := if deficit < MAX_CORRECTION then deficit else MAX_CORRECTION;
    if insert > frames {
      insert := frames;
    }
  }

  /** The tail of the insert branch: copies of row `taken - 1`, or silence when there is none. */
  method FillTail(out: array<real>, width: nat, frames: nat, insert: nat, taken: nat)
    requires Fits(out, frames, width) && insert <= frames && taken <= frames - insert
    modifies out
    ensures forall f, c | 0 <= f < frames - insert && 0 <= c < width ::
              Entry(out, width, f, c) == old(Entry(out, width, f, c))
    ensures forall f, c | frames - insert <= f < frames && 0 <= c < width ::
              Entry(out, width, f, c) == if taken > 0 then old(Entry(out, width, taken - 1, c)) else 0.0
  {
    for i := frames - insert to frames
      invariant forall f, c | 0 <= f < frames - insert && 0 <= c < width ::
                  Entry(out, width, f, c) == old(Entry(out, width, f, c))
      invariant forall f, c | frames - insert <= f < i && 0 <= c < width ::
                  Entry(out, width, f, c) == if taken > 0 then old(Entry(out, width, taken - 1, c)) else 0.0
    {
      CopyRow(out, width, frames, i, taken);
    }
  }

  method CopyRow(out: array<real>, width: nat, ghost frames: nat, row: nat, taken: nat)
    requires Fits(out, frames, width) && taken <= row < frames
    modifies out
    ensures forall f, c | 0 <= f && f != row && 0 <= c < width ::
              Entry(out, width, f, c) == old(Entry(out, width, f, c))
    ensures forall c | 0 <= c < width ::
              Entry(out, width, row, c) == if taken > 0 then old(Entry(out, width, taken - 1, c)) else 0.0
  {
    for ch := 0 to width
      invariant forall f, c | 0 <= f && f != row && 0 <= c < width ::
                  Entry(out, width, f, c) == old(Entry(out, width, f, c))
      invariant forall c | 0 <= c < ch ::
                  Entry(out, width, row, c) == if taken > 0 then old(Entry(out, width, taken - 1, c)) else 0.0
    {
      var value := 0.0;
      if taken > 0 {
        value := Get(out, frames, width, taken - 1, ch);
      }
      Put(out, frames, width, row, ch, value);
    }
  }
}

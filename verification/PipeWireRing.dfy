/** AudioRing of src/reacjack-pw.c: interleaved storage, copied in contiguous chunks by while loops. */
module PipeWireRing {
  import opened Audio

  ghost function RowOf(buf: array<real>, width: nat, row: nat): (r: Frame)
    reads buf
    ensures |r| == width && forall c | 0 <= c < width :: r[c] == Entry(buf, width, row, c)
  {
    seq(width, c requires 0 <= c reads buf => Entry(buf, width, row, c))
  }

  /** The frames held by the first rows of an interleaved buffer. */
  ghost function RowsOf(buf: array<real>, width: nat, frames: nat): (r: seq<Frame>)
    reads buf
    ensures |r| == frames && forall i | 0 <= i < frames :: r[i] == RowOf(buf, width, i)
  {
    seq(frames, i requires 0 <= i reads buf => RowOf(buf, width, i))
  }

  /** memcpy of whole rows between two buffers. */
  method CopyRows(src: array<real>, srcRow: nat, dst: array<real>, dstRow: nat, rows: nat, width: nat,
                  ghost srcRows: nat, ghost dstRows: nat)
    requires src != dst && Fits(src, srcRows, width) && Fits(dst, dstRows, width)
    requires srcRow + rows <= srcRows && dstRow + rows <= dstRows
    modifies dst
    ensures forall r, c | dstRow <= r < dstRow + rows && 0 <= c < width ::
              Entry(dst, width, r, c) == Entry(src, width, srcRow + (r - dstRow), c)
    ensures forall r, c | 0 <= r && !(dstRow <= r < dstRow + rows) && 0 <= c < width ::
              Entry(dst, width, r, c) == old(Entry(dst, width, r, c))
  {
    for i := 0 to rows
      invariant forall r, c | dstRow <= r < dstRow + i && 0 <= c < width ::
                  Entry(dst, width, r, c) == Entry(src, width, srcRow + (r - dstRow), c)
      invariant forall r, c | 0 <= r && !(dstRow <= r < dstRow + i) && 0 <= c < width ::
                  Entry(dst, width, r, c) == old(Entry(dst, width, r, c))
    {
      CopyRow(src, srcRow + i, dst, dstRow + i, width, srcRows, dstRows);
    }
  }

  method CopyRow(src: array<real>, srcRow: nat, dst: array<real>, dstRow: nat, width: nat,
                 ghost srcRows: nat, ghost dstRows: nat)
    requires src != dst && Fits(src, srcRows, width) && Fits(dst, dstRows, width)
    requires srcRow < srcRows && dstRow < dstRows
    modifies dst
    ensures forall c | 0 <= c < width :: Entry(dst, width, dstRow, c) == Entry(src, width, srcRow, c)
    ensures forall r, c | 0 <= r && r != dstRow && 0 <= c < width ::
              Entry(dst, width, r, c) == old(Entry(dst, width, r, c))
  {
    for ch := 0 to width
      invariant forall c | 0 <= c < ch :: Entry(dst, width, dstRow, c) == Entry(src, width, srcRow, c)
      invariant forall r, c | 0 <= r && r != dstRow && 0 <= c < width ::
                  Entry(dst, width, r, c) == old(Entry(dst, width, r, c))
    {
      var value := Get(src, srcRows, width, srcRow, ch);
      Put(dst, dstRows, width, dstRow, ch, value);
    }
  }

  class Ring {
    const channels: nat
    const capacity: nat
    const samples: array<real>
    var readPos: nat
    var writePos: nat
    ghost var log: seq<Frame>

    ghost predicate Holds()
      requires capacity > 0 && |log| == writePos
      reads this, samples
    {
      && (forall p | readPos <= p < writePos :: |log[p]| == channels)
      && (forall p, ch | readPos <= p < writePos && 0 <= ch < channels ::
            Entry(samples, channels, Cell(p, capacity), ch) == log[p][ch])
    }

    ghost predicate Valid()
      reads this, samples
    {
      && 0 < channels && 0 < capacity && Fits(samples, capacity, channels)
      && |log| == writePos && readPos <= writePos <= readPos + capacity
      && Holds()
    }

    constructor (channels: nat, capacity: nat)
      requires 0 < channels && 0 < capacity
      ensures Valid() && fresh(samples) && log == [] && readPos == 0
      ensures this.channels == channels && this.capacity == capacity
    {
      this.channels := channels;
      this.capacity := capacity;
      samples := new real[capacity * channels](_ => 0.0);
      readPos, writePos, log := 0, 0, [];
      SlotValue(capacity, channels, 0);
    }

    /** One pass of the write loop: a contiguous run of cells from position `base` on. */
    method WriteChunk(src: array<real>, from: nat, base: nat, left: nat, ghost rows: nat) returns (todo: nat)
      requires 0 < capacity && Fits(samples, capacity, channels) && src != samples && Fits(src, rows, channels)
      requires 0 < left <= capacity && from + left <= rows
      modifies samples
      ensures 0 < todo <= left
      ensures forall p, c | base <= p < base + todo && 0 <= c < channels ::
                Entry(samples, channels, Cell(p, capacity), c) == Entry(src, channels, from + (p - base), c)
      ensures forall p, c | 0 <= p < base && base + left <= p + capacity && 0 <= c < channels ::
                Entry(samples, channels, Cell(p, capacity), c) == old(Entry(samples, channels, Cell(p, capacity), c))
    {
      var index := CellIndex(base, capacity);
      var contiguous := capacity - index;
      todo := left;
      if todo > contiguous {
        todo := contiguous;
      }
      CopyRows(src, from, samples, index, todo, channels, rows, capacity);
      forall p, c | base <= p < base + todo && 0 <= c < channels
        ensures Entry(samples, channels, Cell(p, capacity), c) == Entry(src, channels, from + (p - base), c)
      {
        SplitCellIsCell(base, p - base, capacity);
      }
      forall p, c | 0 <= p < base && base + left <= p + capacity && 0 <= c < channels
        ensures Entry(samples, channels, Cell(p, capacity), c) == old(Entry(samples, channels, Cell(p, capacity), c))
      {
        BlockAvoids(p, base, todo, capacity);
      }
    }

    /** The write loop: `frames` rows go to the cells behind the write position. */
    method WriteChunks(src: array<real>, frames: nat)
      requires Valid() && src != samples && Fits(src, frames, channels) && writePos + frames <= readPos + capacity
      modifies samples
      ensures Valid()
      ensures forall p, c | writePos <= p < writePos + frames && 0 <= c < channels ::
                Entry(samples, channels, Cell(p, capacity), c) == Entry(src, channels, p - writePos, c)
    {
      var written := 0;
      while written < frames
        invariant 0 <= written <= frames && Valid()
        invariant forall p, c | writePos <= p < writePos + written && 0 <= c < channels ::
                    Entry(samples, channels, Cell(p, capacity), c) == Entry(src, channels, p - writePos, c)
      {
        var todo := WriteChunk(src, written, writePos + written, frames - written, frames);
        written := written + todo;
      }
    }

    method Write(interleaved: array<real>, frames: nat) returns (ok: bool)
      requires Valid() && interleaved != samples && Fits(interleaved, frames, channels)
      modifies `writePos, `log, samples
      ensures Valid()
      ensures ok <==> old(writePos - readPos) + frames <= capacity
      ensures ok ==> log == old(log) + RowsOf(interleaved, channels, frames)
      ensures !ok ==> log == old(log) && unchanged(samples)
    {
      var used := writePos - readPos;
      var freeFrames := capacity - used;
      if frames > freeFrames {
        return false;
      }
      WriteChunks(interleaved, frames);
      ghost var block := RowsOf(interleaved, channels, frames);
      ghost var base := writePos;
      log := log + block;
      writePos := writePos + frames;
      forall p, c | base <= p < writePos && 0 <= c < channels
        ensures Entry(samples, channels, Cell(p, capacity), c) == log[p][c]
      {
        assert log[p] == block[p - base];
      }
      return true;
    }

    /** One pass of the read loop. */
    method ReadChunk(out: array<real>, done: nat, left: nat, ghost frames: nat) returns (todo: nat)
      requires Valid() && out != samples && Fits(out, frames, channels)
      requires 0 < left && done + left <= frames && readPos + done + left <= writePos
      modifies out
      ensures 0 < todo <= left
      ensures forall f, c | done <= f < done + todo && 0 <= c < channels ::
                Entry(out, channels, f, c) == Sample(log, readPos + f, c)
      ensures forall f, c | 0 <= f && !(done <= f < done + todo) && 0 <= c < channels ::
                Entry(out, channels, f, c) == old(Entry(out, channels, f, c))
    {
      var index := CellIndex(readPos + done, capacity);
      var contiguous := capacity - index;
      todo := left;
      if todo > contiguous {
        todo := contiguous;
      }
      CopyRows(samples, index, out, done, todo, channels, capacity, frames);
      forall f, c | done <= f < done + todo && 0 <= c < channels
        ensures Entry(out, channels, f, c) == Sample(log, readPos + f, c)
      {
        SplitCellIsCell(readPos + done, f - done, capacity);
        assert Entry(samples, channels, Cell(readPos + f, capacity), c) == log[readPos + f][c];
      }
    }

    method ReadChunks(out: array<real>, toRead: nat, ghost frames: nat)
      requires Valid() && out != samples && Fits(out, frames, channels)
      requires toRead <= frames && readPos + toRead <= writePos
      modifies out
      ensures Holding(out, channels, toRead, log, readPos)
      ensures forall f, c | toRead <= f && 0 <= c < channels ::
                Entry(out, channels, f, c) == old(Entry(out, channels, f, c))
    {
      var done := 0;
      while done < toRead
        invariant 0 <= done <= toRead && Holding(out, channels, done, log, readPos)
        invariant forall f, c | done <= f && 0 <= c < channels ::
                    Entry(out, channels, f, c) == old(Entry(out, channels, f, c))
      {
        var todo := ReadChunk(out, done, toRead - done, frames);
        done := done + todo;
      }
    }

    method Read(out: array<real>, frames: nat) returns (toRead: nat)
      requires Valid() && out != samples && Fits(out, frames, channels)
      modifies `readPos, out
      ensures Valid()
      ensures toRead == Min(old(writePos - readPos), frames) && readPos == old(readPos) + toRead
      ensures Holding(out, channels, frames, log, old(readPos))
    {
      var available := writePos - readPos;
      toRead := if available < frames then available else frames;
      ReadChunks(out, toRead, frames);
      Silence(out, toRead, frames);
      readPos := readPos + toRead;
    }

    /** memset of the rows past the end of the log. */
    method Silence(out: array<real>, from: nat, frames: nat)
      requires Fits(out, frames, channels) && from <= frames
      modifies out
      ensures forall f, c | from <= f < frames && 0 <= c < channels :: Entry(out, channels, f, c) == 0.0
      ensures forall f, c | 0 <= f < from && 0 <= c < channels ::
                Entry(out, channels, f, c) == old(Entry(out, channels, f, c))
    {
      for i := from to frames
        invariant forall f, c | from <= f < i && 0 <= c < channels :: Entry(out, channels, f, c) == 0.0
        invariant forall f, c | 0 <= f < from && 0 <= c < channels ::
                    Entry(out, channels, f, c) == old(Entry(out, channels, f, c))
      {
        for ch := 0 to channels
          invariant forall f, c | from <= f <= i && 0 <= c < channels && (f < i || c < ch) ::
                      Entry(out, channels, f, c) == 0.0
          invariant forall f, c | 0 <= f < from && 0 <= c < channels ::
                      Entry(out, channels, f, c) == old(Entry(out, channels, f, c))
        {
          Put(out, frames, channels, i, ch, 0.0);
        }
      }
    }
  }
}

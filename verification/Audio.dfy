/**
  Vocabulary shared by every component: audio frames, the flat buffer layouts
  they are stored in, and the arithmetic of a ring of cells.
 */
module Audio {

  /** One sample per channel. */
  type Frame = seq<real>

  function Min(a: nat, b: nat): nat { if a < b then a else b }

  /**
    The sample a reader sees at an absolute position: the one written there,
    or silence past the end of the log and past the channels of the frame.
    Every read algorithm of the repository is proved against this function.
   */
  function Sample(log: seq<Frame>, pos: nat, ch: nat): real {
    if pos < |log| && ch < |log[pos]| then log[pos][ch] else 0.0
  }

  /** The frames held by `frames` columns of planar input, of which `channels` rows are used. */
  function Transpose(planar: seq<seq<real>>, channels: nat, frames: nat): (r: seq<Frame>)
    requires channels <= |planar|
    requires forall ch | 0 <= ch < channels :: frames <= |planar[ch]|
    ensures |r| == frames && forall i | 0 <= i < frames :: |r[i]| == channels
  {
    seq(frames, i requires 0 <= i < frames => seq(channels, ch requires 0 <= ch < channels => planar[ch][i]))
  }

  /**
    Offset of (row, col) in a flat buffer of rows of `width` elements. Stated
    by recursion on the row; SlotValue gives the closed form the code computes.
   */
  ghost function Slot(row: nat, width: nat, col: nat): nat {
    if row == 0 then col else width + Slot(row - 1, width, col)
  }

  lemma {:induction false} SlotValue(row: nat, width: nat, col: nat)
    ensures Slot(row, width, col) == row * width + col
  {
    if row > 0 {
      SlotValue(row - 1, width, col);
      assert row * width == (row - 1) * width + width;
    }
  }

  lemma {:induction false} SlotBound(row: nat, rows: nat, width: nat, col: nat)
    requires row < rows && col < width
    ensures Slot(row, width, col) < Slot(rows, width, 0)
  {
    if row > 0 {
      SlotBound(row - 1, rows - 1, width, col);
    } else {
      assert Slot(rows, width, 0) == width + Slot(rows - 1, width, 0);
    }
  }

  lemma {:induction false} SlotMonotone(r1: nat, r2: nat, width: nat, col: nat)
    requires r1 <= r2
    ensures Slot(r1, width, 0) + col <= Slot(r2, width, col)
  {
    if r1 < r2 {
      SlotMonotone(r1, r2 - 1, width, col);
    } else if r1 > 0 {
      SlotMonotone(r1 - 1, r2 - 1, width, col);
    }
  }

  /** Distinct (row, col) pairs never share an element. */
  lemma {:induction false} SlotInjective(r1: nat, c1: nat, r2: nat, c2: nat, width: nat)
    requires c1 < width && c2 < width
    ensures Slot(r1, width, c1) == Slot(r2, width, c2) ==> r1 == r2 && c1 == c2
  {
    if r1 > 0 && r2 > 0 {
      SlotInjective(r1 - 1, c1, r2 - 1, c2, width);
    } else {
      SlotBound(r1, r1 + 1, width, c1);
      SlotBound(r2, r2 + 1, width, c2);
    }
  }

  /** Room for `rows` rows of `width` elements. */
  ghost predicate Fits(buf: array<real>, rows: nat, width: nat) {
    Slot(rows, width, 0) <= buf.Length
  }

  /** Element (row, col) of a flat buffer; past its end there is nothing to see. */
  ghost function Entry(buf: array<real>, width: nat, row: nat, col: nat): real
    reads buf
  {
    if Slot(row, width, col) < buf.Length then buf[Slot(row, width, col)] else 0.0
  }

  /** The first `frames` rows are the samples read from `pos` on. */
  ghost predicate Holding(buf: array<real>, width: nat, frames: nat, log: seq<Frame>, pos: nat)
    reads buf
  {
    forall f, c | 0 <= f < frames && 0 <= c < width :: Entry(buf, width, f, c) == Sample(log, pos + f, c)
  }

  method Put(buf: array<real>, ghost rows: nat, width: nat, row: nat, col: nat, value: real)
    requires row < rows && col < width && Fits(buf, rows, width)
    modifies buf
    ensures Entry(buf, width, row, col) == value
    ensures forall r, c | 0 <= r && 0 <= c < width && !(r == row && c == col) ::
              Entry(buf, width, r, c) == old(Entry(buf, width, r, c))
  {
    SlotValue(row, width, col);
    SlotBound(row, rows, width, col);
    buf[row * width + col] := value;
    forall r, c | 0 <= r && 0 <= c < width && !(r == row && c == col)
      ensures Entry(buf, width, r, c) == old(Entry(buf, width, r, c))
    {
      SlotInjective(r, c, row, col, width);
    }
  }

  method Get(buf: array<real>, ghost rows: nat, width: nat, row: nat, col: nat) returns (value: real)
    requires row < rows && col < width && Fits(buf, rows, width)
    ensures value == Entry(buf, width, row, col)
  {
    SlotValue(row, width, col);
    SlotBound(row, rows, width, col);
    value := buf[row * width + col];
  }

  /** memset of the first `rows` rows. */
  method Zero(buf: array<real>, rows: nat, width: nat)
    requires Fits(buf, rows, width)
    modifies buf
    ensures forall r, c | 0 <= r < rows && 0 <= c < width :: Entry(buf, width, r, c) == 0.0
    ensures forall r, c | rows <= r && 0 <= c < width :: Entry(buf, width, r, c) == old(Entry(buf, width, r, c))
  {
    SlotValue(rows, width, 0);
    for k := 0 to rows * width
      invariant forall j | 0 <= j < k :: buf[j] == 0.0
      invariant forall j | k <= j < buf.Length :: buf[j] == old(buf[j])
    {
      buf[k] := 0.0;
    }
    forall r, c | 0 <= r < rows && 0 <= c < width
      ensures Entry(buf, width, r, c) == 0.0
    {
      SlotBound(r, rows, width, c);
    }
    forall r, c | rows <= r && 0 <= c < width
      ensures Entry(buf, width, r, c) == old(Entry(buf, width, r, c))
    {
      SlotMonotone(rows, r, width, c);
    }
  }

  /** The ring cell of an absolute frame position; CellIsMod gives the form the code computes. */
  ghost function Cell(pos: nat, capacity: nat): (cell: nat)
    requires capacity > 0
    ensures cell < capacity
  {
    if pos < capacity then pos else Cell(pos - capacity, capacity)
  }

  lemma {:induction false} CellIsMod(pos: nat, capacity: nat)
    requires capacity > 0
    ensures Cell(pos, capacity) == pos % capacity
  {
    if pos >= capacity {
      CellIsMod(pos - capacity, capacity);
      ModPeriodic(pos - capacity, capacity);
    }
  }

  lemma ModPeriodic(x: nat, n: nat)
    requires n > 0
    ensures (x + n) % n == x % n
  {
    var d := x / n + 1 - (x + n) / n;
    assert (x + n) % n - x % n == d * n;
    MultipleGap(d, n);
    MultipleGap(-d, n);
    assert (-d) * n == -(d * n);
  }

  /** The index computation of the C code. */
  method CellIndex(pos: nat, capacity: nat) returns (index: nat)
    requires capacity > 0
    ensures index == Cell(pos, capacity)
  {
    CellIsMod(pos, capacity);
    index := pos % capacity;
  }

  lemma MultipleGap(d: int, n: nat)
    ensures d * n <= 0 || d * n >= n
  {
    if d >= 1 { assert (d - 1) * n >= 0; }
  }

  /** Positions less than one lap apart never share a cell. */
  lemma {:induction false} CellDistinct(p: nat, q: nat, capacity: nat)
    requires capacity > 0 && p < q < p + capacity
    ensures Cell(p, capacity) != Cell(q, capacity)
  {
    if p >= capacity {
      CellDistinct(p - capacity, q - capacity, capacity);
    }
  }

  /**
    The two-part copy of a block that starts at cell `index`: element i lies at
    `index + i` before the wrap point and at `i - (capacity - index)` after it.
   */
  function SplitCell(index: nat, i: nat, capacity: nat): nat
    requires index < capacity
  {
    if i < capacity - index then index + i else i - (capacity - index)
  }

  /** The two-part copy and the per-frame modulo visit the same cells. */
  lemma {:induction false} SplitCellIsCell(pos: nat, i: nat, capacity: nat)
    requires capacity > 0 && i < capacity
    ensures SplitCell(Cell(pos, capacity), i, capacity) == Cell(pos + i, capacity)
  {
    if pos >= capacity {
      SplitCellIsCell(pos - capacity, i, capacity);
    }
  }

  /** A block of at most a lap that starts at `pos` leaves alone every cell whose position is less than a lap older. */
  lemma BlockAvoids(p: nat, pos: nat, frames: nat, capacity: nat)
    requires capacity > 0 && p < pos && pos + frames <= p + capacity
    ensures var index := Cell(pos, capacity); var first := Min(frames, capacity - index); var cell := Cell(p, capacity);
            !(index <= cell < index + first) && !(cell < frames - first)
  {
    var index := Cell(pos, capacity);
    var cell := Cell(p, capacity);
    var i := if index <= cell then cell - index else capacity - index + cell;
    assert SplitCell(index, i, capacity) == cell;
    if i < frames {
      SplitCellIsCell(pos, i, capacity);
      CellDistinct(p, pos + i, capacity);
    }
  }
}

/**
  src/shared_audio.c as two processes that share the ring: every load or store
  of a position and every copied sample is a step of its own, and the steps
  interleave in any order (sequentially consistent). Copy loops may take their
  samples in any order, which covers memcpy.
 */
module RingProtocol {
  import opened Audio
  import opened Regulation

  datatype Request =
    | Planar(frames: nat)
    | Interleaved(width: nat, frames: nat)
    | Regulated(width: nat, frames: nat, target: nat, tolerance: nat)
    | Seek(target: nat)

  /** Program counter and locals of shared_audio_write. */
  datatype Writer =
    | WIdle
    | WOwn(data: seq<Frame>)                      // next: load write_pos
    | WPeer(data: seq<Frame>, own: nat)           // next: load read_pos and test for room
    | WReload(data: seq<Frame>)                   // next: load write_pos again
    | WCopy(data: seq<Frame>, base: nat, done: set<(nat, nat)>)

  /** The inner read of every reader call; `insert` frames of tail follow it. */
  datatype Inner = Inner(width: nat, frames: nat, insert: nat, split: bool)

  /** Program counter and locals of the reader calls. */
  datatype Reader =
    | RIdle
    | RMeasure(req: Request)                      // regulated, next: load read_pos
    | RBranch(req: Request, own: nat)             // regulated, next: load write_pos and branch
    | RDrop(own: nat, drop: nat, inner: Inner)    // next: store read_pos
    | ROwn(inner: Inner)                          // next: load read_pos
    | RPeer(inner: Inner, own: nat)               // next: load write_pos
    | RCopy(inner: Inner, own: nat, count: nat, got: map<(nat, nat), real>)
    | RTail(insert: nat, last: seq<Frame>)        // read_pos stored, next: fill the tail
    | SPeer(target: nat)                          // seek, next: load write_pos
    | SOwn(target: nat, peer: nat)                // seek, next: load read_pos
    | SStore(own: nat, next: nat)                 // seek, next: store read_pos

  /** What the reader did to the stream, in order. */
  datatype Item =
    | Real(width: nat, frames: seq<Frame>)
    | Copies(n: nat, frame: Frame)
    | Silent(n: nat)
    | Dropped(n: nat)
    | Skipped(n: nat)

  /** Shared memory, with the log of every frame ever published. */
  datatype Memory = Memory(channels: nat, capacity: nat, cells: seq<seq<real>>, writePos: nat, readPos: nat,
                           log: seq<Frame>)

  /** The reader's counters, with what it did, how many output frames it was asked for, and how wide in each call. */
  datatype Ledger = Ledger(droppedFrames: nat, insertedFrames: nat, underruns: nat, resets: nat,
                           history: seq<Item>, requested: nat, widths: seq<nat>)

  datatype State = State(m: Memory, l: Ledger, overruns: nat, w: Writer, r: Reader)

  datatype Action =
    | CallWrite(data: seq<Frame>) | WriterMoves | CopyIn(i: nat, ch: nat)
    | CallReader(req: Request) | ReaderMoves | CopyOut(i: nat, ch: nat)

  function Init(channels: nat, capacity: nat): State {
    State(Memory(channels, capacity, seq(channels, _ => seq(capacity, _ => 0.0)), 0, 0, []),
          Ledger(0, 0, 0, 0, [], 0, []), 0, WIdle, RIdle)
  }

  // ----- the writer -----

  ghost function WriterCell(m: Memory, base: nat, i: nat): nat
    requires m.capacity > 0
  {
    SplitCell(Cell(base, m.capacity), i, m.capacity)
  }

  predicate CopiedIn(m: Memory, data: seq<Frame>, done: set<(nat, nat)>) {
    forall i, ch | 0 <= i < |data| && 0 <= ch < m.channels :: (i, ch) in done
  }

  /** Room is tested against a snapshot of read_pos that may already be stale. */
  function WriterStep(s: State): State {
    match s.w
    case WOwn(data) => s.(w := WPeer(data, s.m.writePos))
    case WPeer(data, own) =>
      if own - s.m.readPos + |data| > s.m.capacity then s.(w := WIdle, overruns := s.overruns + 1)
      else s.(w := WReload(data))
    case WReload(data) => s.(w := WCopy(data, s.m.writePos, {}))
    case WCopy(data, base, done) =>
      if CopiedIn(s.m, data, done) then
        s.(w := WIdle, m := s.m.(writePos := base + |data|, log := s.m.log + data))
      else s
    case WIdle => s
  }

  ghost function CopyInStep(s: State, i: nat, ch: nat): State {
    match s.w
    case WCopy(data, base, done) =>
      if s.m.capacity > 0 && i < |data| && ch < |s.m.cells| && ch < |data[i]|
         && WriterCell(s.m, base, i) < |s.m.cells[ch]| then
        s.(m := s.m.(cells := s.m.cells[ch := s.m.cells[ch][WriterCell(s.m, base, i) := data[i][ch]]]),
           w := WCopy(data, base, done + {(i, ch)}))
      else s
    case _ => s
  }

  // ----- the reader -----

  ghost function ReaderCell(m: Memory, inner: Inner, own: nat, i: nat): nat
    requires m.capacity > 0
  {
    if inner.split then SplitCell(Cell(own, m.capacity), i, m.capacity) else Cell(own + i, m.capacity)
  }

  predicate CopiedOut(m: Memory, inner: Inner, count: nat, got: map<(nat, nat), real>) {
    forall i, ch | 0 <= i < count && 0 <= ch < Min(m.channels, inner.width) :: (i, ch) in got
  }

  /** The block handed to the caller: samples that were never copied stay at the zero of the memset. */
  function Block(inner: Inner, count: nat, got: map<(nat, nat), real>): (r: seq<Frame>)
    ensures |r| == count && forall i | 0 <= i < count :: |r[i]| == inner.width
  {
    seq(count, i requires 0 <= i =>
      seq(inner.width, ch requires 0 <= ch => if (i, ch) in got then got[(i, ch)] else 0.0))
  }

  /** The ledger and the state after the store of read_pos. */
  function Booked(l: Ledger, inner: Inner, block: seq<Frame>): Ledger
    requires |block| <= inner.frames
  {
    l.(underruns := if |block| < inner.frames then l.underruns + 1 else l.underruns,
       history := l.history + [Real(inner.width, block)] + [Silent(inner.frames - |block|)])
  }

  function LastOf(block: seq<Frame>): seq<Frame> { if |block| > 0 then [block[|block| - 1]] else [] }

  function Deliver(m: Memory, l: Ledger, overruns: nat, w: Writer, inner: Inner, own: nat, block: seq<Frame>): State
    requires |block| <= inner.frames
  {
    State(m.(readPos := own + |block|), Booked(l, inner, block), overruns, w, RTail(inner.insert, LastOf(block)))
  }

  function ReaderStep(s: State): State {
    match s.r
    case RMeasure(req) => s.(r := RBranch(req, s.m.readPos))
    case RBranch(req, own) =>
      if !req.Regulated? || s.m.writePos < own then s else
      var c := Correct(s.m.writePos - own, req.frames, req.target, req.tolerance);
      var inner := Inner(req.width, req.frames - c.insert, c.insert, false);
      if c.drop > 0 then s.(r := RDrop(own, c.drop, inner)) else s.(r := ROwn(inner))
    case RDrop(own, drop, inner) =>
      s.(r := ROwn(inner), m := s.m.(readPos := own + drop),
         l := s.l.(droppedFrames := s.l.droppedFrames + drop, history := s.l.history + [Dropped(drop)]))
    case ROwn(inner) => s.(r := RPeer(inner, s.m.readPos))
    case RPeer(inner, own) =>
      if s.m.writePos < own then s else
      s.(r := RCopy(inner, own, Min(s.m.writePos - own, inner.frames), map[]))
    case RCopy(inner, own, count, got) =>
      if CopiedOut(s.m, inner, count, got) && count <= inner.frames then
        Deliver(s.m, s.l, s.overruns, s.w, inner, own, Block(inner, count, got))
      else s
    case RTail(insert, last) =>
      if |last| > 0 then
        s.(r := RIdle, l := s.l.(insertedFrames := s.l.insertedFrames + insert,
                                 history := s.l.history + [Copies(insert, last[0])]))
      else s.(r := RIdle, l := s.l.(history := s.l.history + [Silent(insert)]))
    case SPeer(target) => s.(r := SOwn(target, s.m.writePos))
    case SOwn(target, peer) =>
      if peer < s.m.readPos then s else
      s.(r := SStore(s.m.readPos, peer - Min(peer - s.m.readPos, target)))
    case SStore(own, next) =>
      if next < own then s else
      s.(r := RIdle, m := s.m.(readPos := next),
         l := s.l.(resets := s.l.resets + 1, history := s.l.history + [Skipped(next - own)]))
    case RIdle => s
  }

  ghost predicate CanCopyOut(m: Memory, inner: Inner, own: nat, count: nat, i: nat, ch: nat) {
    && m.capacity > 0 && i < count && ch < Min(m.channels, inner.width) && ch < |m.cells|
    && ReaderCell(m, inner, own, i) < |m.cells[ch]|
  }

  ghost function CopyOutStep(s: State, i: nat, ch: nat): State {
    match s.r
    case RCopy(inner, own, count, got) =>
      if CanCopyOut(s.m, inner, own, count, i, ch) then
        s.(r := RCopy(inner, own, count, got[(i, ch) := s.m.cells[ch][ReaderCell(s.m, inner, own, i)]]))
      else s
    case _ => s
  }

  function CallReaderStep(s: State, req: Request): State {
    if !s.r.RIdle? then s else
    match req
    case Planar(frames) => s.(r := ROwn(Inner(s.m.channels, frames, 0, true)), l := Asked(s.l, frames, s.m.channels))
    case Interleaved(width, frames) => s.(r := ROwn(Inner(width, frames, 0, false)), l := Asked(s.l, frames, width))
    case Regulated(width, frames, _, _) => s.(r := RMeasure(req), l := Asked(s.l, frames, width))
    case Seek(target) => s.(r := SPeer(target))
  }

  function Asked(l: Ledger, frames: nat, width: nat): Ledger {
    l.(requested := l.requested + frames, widths := l.widths + [width])
  }

  predicate FramesOf(data: seq<Frame>, channels: nat) { forall i | 0 <= i < |data| :: |data[i]| == channels }

  /** One step of one process; an action that is not enabled changes nothing. */
  ghost function Next(s: State, a: Action): State {
    match a
    case CallWrite(data) => if s.w.WIdle? && FramesOf(data, s.m.channels) then s.(w := WOwn(data)) else s
    case WriterMoves => WriterStep(s)
    case CopyIn(i, ch) => CopyInStep(s, i, ch)
    case CallReader(req) => CallReaderStep(s, req)
    case ReaderMoves => ReaderStep(s)
    case CopyOut(i, ch) => CopyOutStep(s, i, ch)
  }

  ghost function Exec(s: State, actions: seq<Action>): State {
    if actions == [] then s else Next(Exec(s, actions[..|actions| - 1]), actions[|actions| - 1])
  }

  // ----- what the history says -----

  /** Frames of each kind that the reader got through. */
  datatype Totals = Totals(returned: nat, copied: nat, silent: nat, dropped: nat, skipped: nat)

  function Add(t: Totals, item: Item): Totals {
    match item
    case Real(_, frames) => t.(returned := t.returned + |frames|)
    case Copies(n, _) => t.(copied := t.copied + n)
    case Silent(n) => t.(silent := t.silent + n)
    case Dropped(n) => t.(dropped := t.dropped + n)
    case Skipped(n) => t.(skipped := t.skipped + n)
  }

  function Tally(h: seq<Item>): Totals {
    if h == [] then Totals(0, 0, 0, 0, 0) else Add(Tally(h[..|h| - 1]), h[|h| - 1])
  }

  /** Stream positions the history accounts for. */
  function Advance(h: seq<Item>): nat { Tally(h).returned + Tally(h).dropped + Tally(h).skipped }

  /** Delivered frames are the frames of the log at their absolute positions, copies repeat the last one consumed. */
  ghost predicate ItemTrue(item: Item, pos: nat, log: seq<Frame>) {
    match item
    case Real(_, frames) =>
      && pos + |frames| <= |log|
      && forall i | 0 <= i < |frames| :: Matches(frames[i], log, pos + i)
    case Copies(_, frame) =>
      0 < pos <= |log| && Matches(frame, log, pos - 1)
    case _ => true
  }

  /** The history is the written stream in order; only drops and seeks leave gaps. */
  ghost predicate Faithful(h: seq<Item>, log: seq<Frame>) {
    h == [] || (Faithful(h[..|h| - 1], log) && ItemTrue(h[|h| - 1], Advance(h[..|h| - 1]), log))
  }

  lemma Append(h: seq<Item>, item: Item, log: seq<Frame>)
    requires Faithful(h, log) && ItemTrue(item, Advance(h), log)
    ensures Faithful(h + [item], log) && Tally(h + [item]) == Add(Tally(h), item)
  {
    assert (h + [item])[..|h|] == h;
  }

  /** Frames appended to the log do not change what was said about older ones. */
  lemma {:induction false} FaithfulGrows(h: seq<Item>, log: seq<Frame>, more: seq<Frame>)
    requires Faithful(h, log)
    ensures Faithful(h, log + more)
  {
    if h != [] {
      FaithfulGrows(h[..|h| - 1], log, more);
    }
  }

  // ----- the invariant -----

  ghost predicate Shaped(m: Memory) {
    && 0 < m.channels && 0 < m.capacity && |m.cells| == m.channels
    && (forall ch | 0 <= ch < m.channels :: |m.cells[ch]| == m.capacity)
    && |m.log| == m.writePos && FramesOf(m.log, m.channels)
    && m.readPos <= m.writePos <= m.readPos + m.capacity
  }

  /** Every published, unread frame is intact in the ring. */
  ghost predicate Stored(m: Memory)
    requires Shaped(m)
  {
    forall p, ch | m.readPos <= p < m.writePos && 0 <= ch < m.channels ::
      m.cells[ch][Cell(p, m.capacity)] == m.log[p][ch]
  }

  ghost predicate WriterInv(m: Memory, w: Writer)
    requires Shaped(m)
  {
    match w
    case WIdle => true
    case WOwn(data) => FramesOf(data, m.channels)
    case WPeer(data, own) => FramesOf(data, m.channels) && own == m.writePos
    case WReload(data) => FramesOf(data, m.channels) && m.writePos + |data| <= m.readPos + m.capacity
    case WCopy(data, base, done) =>
      && FramesOf(data, m.channels)
      && base == m.writePos && base + |data| <= m.readPos + m.capacity
      && forall i, ch | 0 <= i < |data| && 0 <= ch < m.channels && (i, ch) in done ::
           m.cells[ch][Cell(base + i, m.capacity)] == data[i][ch]
  }

  ghost predicate Matches(frame: Frame, log: seq<Frame>, pos: nat) {
    forall ch | 0 <= ch < |frame| :: frame[ch] == Sample(log, pos, ch)
  }

  ghost predicate ReaderInv(m: Memory, r: Reader)
    requires Shaped(m)
  {
    match r
    case RMeasure(req) => req.Regulated?
    case RBranch(req, own) => req.Regulated? && own == m.readPos
    case RDrop(own, drop, _) => own == m.readPos && own + drop <= m.writePos
    case RPeer(_, own) => own == m.readPos
    case RCopy(inner, own, count, got) =>
      && own == m.readPos && own + count <= m.writePos && count <= inner.frames
      && forall i, ch | 0 <= i < count && 0 <= ch && (i, ch) in got ::
           ch < m.channels && got[(i, ch)] == m.log[own + i][ch]
    case RTail(_, last) => |last| > 0 ==> 0 < m.readPos && Matches(last[0], m.log, m.readPos - 1)
    case SOwn(_, peer) => m.readPos <= peer <= m.writePos
    case SStore(own, next) => own == m.readPos && own <= next <= m.writePos
    case _ => true
  }

  /** Output frames the running call still owes. */
  function Owed(r: Reader): nat {
    match r
    case RMeasure(req) => if req.Regulated? then req.frames else 0
    case RBranch(req, _) => if req.Regulated? then req.frames else 0
    case RDrop(_, _, inner) => inner.frames + inner.insert
    case ROwn(inner) => inner.frames + inner.insert
    case RPeer(inner, _) => inner.frames + inner.insert
    case RCopy(inner, _, _, _) => inner.frames + inner.insert
    case RTail(insert, _) => insert
    case _ => 0
  }

  ghost predicate LedgerInv(l: Ledger, log: seq<Frame>, readPos: nat, owed: nat) {
    var t := Tally(l.history);
    && Faithful(l.history, log)
    && readPos == Advance(l.history)
    && t.dropped == l.droppedFrames && t.copied == l.insertedFrames
    && l.requested == t.returned + t.copied + t.silent + owed
  }

  ghost predicate Inv(s: State) {
    && Shaped(s.m) && Stored(s.m) && WriterInv(s.m, s.w) && ReaderInv(s.m, s.r)
    && LedgerInv(s.l, s.m.log, s.m.readPos, Owed(s.r))
  }

  /** The invariant of a state from its parts. */
  lemma Assemble(t: State)
    requires Shaped(t.m) && Stored(t.m) && WriterInv(t.m, t.w) && ReaderInv(t.m, t.r)
    requires LedgerInv(t.l, t.m.log, t.m.readPos, Owed(t.r))
    ensures Inv(t)
  {
  }

  // ----- steps of the writer keep the invariant -----

  /** Storing write_pos exposes exactly the frames that were copied. */
  lemma PublishStores(m: Memory, data: seq<Frame>, done: set<(nat, nat)>)
    requires Shaped(m) && Stored(m) && WriterInv(m, WCopy(data, m.writePos, done)) && CopiedIn(m, data, done)
    ensures var n := m.(writePos := m.writePos + |data|, log := m.log + data); Shaped(n) && Stored(n)
  {
    var n := m.(writePos := m.writePos + |data|, log := m.log + data);
    forall p, ch | n.readPos <= p < n.writePos && 0 <= ch < n.channels
      ensures n.cells[ch][Cell(p, n.capacity)] == n.log[p][ch]
    {
      if p >= m.writePos {
        var i := p - m.writePos;
        assert (i, ch) in done;
        assert p == m.writePos + i;
      }
    }
  }

  /** What the reader holds stays true of a longer log. */
  lemma ReaderInvGrows(m: Memory, n: Memory, r: Reader)
    requires Shaped(m) && Shaped(n) && ReaderInv(m, r)
    requires n.readPos == m.readPos && n.channels == m.channels && m.log <= n.log
    ensures ReaderInv(n, r)
  {
    assert forall p | 0 <= p < |m.log| :: n.log[p] == m.log[p];
  }

  lemma PublishKeeps(s: State)
    requires Inv(s) && s.w.WCopy? && CopiedIn(s.m, s.w.data, s.w.done)
    ensures Inv(WriterStep(s))
  {
    PublishStores(s.m, s.w.data, s.w.done);
    FaithfulGrows(s.l.history, s.m.log, s.w.data);
    ReaderInvGrows(s.m, WriterStep(s).m, s.r);
  }

  lemma WriterKeeps(s: State)
    requires Inv(s)
    ensures Inv(WriterStep(s))
  {
    if s.w.WCopy? && CopiedIn(s.m, s.w.data, s.w.done) {
      PublishKeeps(s);
    }
  }

  ghost function PutIn(m: Memory, data: seq<Frame>, i: nat, ch: nat): Memory
    requires Shaped(m) && FramesOf(data, m.channels) && i < |data| && ch < m.channels
  {
    m.(cells := m.cells[ch := m.cells[ch][Cell(m.writePos + i, m.capacity) := data[i][ch]]])
  }

  /** A copied sample never lands on a cell that holds a published, unread frame. */
  lemma PutInStores(m: Memory, data: seq<Frame>, i: nat, ch: nat)
    requires Shaped(m) && Stored(m) && FramesOf(data, m.channels) && i < |data| && ch < m.channels
    requires m.writePos + |data| <= m.readPos + m.capacity
    ensures Shaped(PutIn(m, data, i, ch)) && Stored(PutIn(m, data, i, ch))
  {
    var n := PutIn(m, data, i, ch);
    forall p, c | n.readPos <= p < n.writePos && 0 <= c < n.channels
      ensures n.cells[c][Cell(p, n.capacity)] == n.log[p][c]
    {
      CellDistinct(p, m.writePos + i, m.capacity);
    }
  }

  /** Nor on one that the same write has already filled. */
  lemma PutInCopies(m: Memory, data: seq<Frame>, done: set<(nat, nat)>, i: nat, ch: nat)
    requires Shaped(m) && WriterInv(m, WCopy(data, m.writePos, done)) && i < |data| && ch < m.channels
    requires Shaped(PutIn(m, data, i, ch))
    ensures WriterInv(PutIn(m, data, i, ch), WCopy(data, m.writePos, done + {(i, ch)}))
  {
    var n := PutIn(m, data, i, ch);
    var base := m.writePos;
    forall j, c | 0 <= j < |data| && 0 <= c < m.channels && (j, c) in done + {(i, ch)}
      ensures n.cells[c][Cell(base + j, m.capacity)] == data[j][c]
    {
      if j < i {
        CellDistinct(base + j, base + i, m.capacity);
      } else if i < j {
        CellDistinct(base + i, base + j, m.capacity);
      }
    }
  }

  lemma CopyInKeeps(s: State, i: nat, ch: nat)
    requires Inv(s)
    ensures Inv(CopyInStep(s, i, ch))
  {
    if s.w.WCopy? && i < |s.w.data| && ch < s.m.channels {
      SplitCellIsCell(s.w.base, i, s.m.capacity);
      PutInStores(s.m, s.w.data, i, ch);
      PutInCopies(s.m, s.w.data, s.w.done, i, ch);
      var n := PutIn(s.m, s.w.data, i, ch);
      assert CopyInStep(s, i, ch) == s.(m := n, w := WCopy(s.w.data, s.w.base, s.w.done + {(i, ch)}));
      ReaderInvGrows(s.m, n, s.r);
    }
  }

  // ----- steps of the reader keep the invariant -----

  /** Moving read_pos forward frees cells but disturbs nothing else. */
  lemma ForwardKeeps(m: Memory, w: Writer, to: nat)
    requires Shaped(m) && Stored(m) && WriterInv(m, w) && m.readPos <= to <= m.writePos
    ensures var n := m.(readPos := to); Shaped(n) && Stored(n) && WriterInv(n, w)
  {
  }

  lemma CopyOutTrue(m: Memory, inner: Inner, own: nat, count: nat, got: map<(nat, nat), real>, i: nat, ch: nat)
    requires Shaped(m) && Stored(m) && ReaderInv(m, RCopy(inner, own, count, got)) && i < count && ch < m.channels
    ensures ReaderInv(m, RCopy(inner, own, count, got[(i, ch) := m.cells[ch][Cell(own + i, m.capacity)]]))
  {
    assert m.cells[ch][Cell(own + i, m.capacity)] == m.log[own + i][ch];
  }

  lemma CopyOutKeeps(s: State, i: nat, ch: nat)
    requires Inv(s)
    ensures Inv(CopyOutStep(s, i, ch))
  {
    if s.r.RCopy? && CanCopyOut(s.m, s.r.inner, s.r.own, s.r.count, i, ch) {
      CopiedOne(s.m, s.l, s.overruns, s.w, s.r.inner, s.r.own, s.r.count, s.r.got, i, ch);
    }
  }

  lemma ReaderCellIsCell(m: Memory, inner: Inner, own: nat, i: nat)
    requires m.capacity > 0 && i < m.capacity
    ensures ReaderCell(m, inner, own, i) == Cell(own + i, m.capacity)
  {
    SplitCellIsCell(own, i, m.capacity);
  }

  lemma CopiedOne(m: Memory, l: Ledger, overruns: nat, w: Writer, inner: Inner, own: nat, count: nat,
                  got: map<(nat, nat), real>, i: nat, ch: nat)
    requires Shaped(m) && Stored(m) && WriterInv(m, w) && ReaderInv(m, RCopy(inner, own, count, got))
    requires LedgerInv(l, m.log, m.readPos, inner.frames + inner.insert) && CanCopyOut(m, inner, own, count, i, ch)
    ensures Inv(State(m, l, overruns, w,
                      RCopy(inner, own, count, got[(i, ch) := m.cells[ch][ReaderCell(m, inner, own, i)]])))
  {
    ReaderCellIsCell(m, inner, own, i);
    CopyOutTrue(m, inner, own, count, got, i, ch);
    var r := RCopy(inner, own, count, got[(i, ch) := m.cells[ch][ReaderCell(m, inner, own, i)]]);
    Assemble(State(m, l, overruns, w, r));
  }

  lemma BlockMatches(m: Memory, inner: Inner, own: nat, count: nat, got: map<(nat, nat), real>)
    requires Shaped(m) && ReaderInv(m, RCopy(inner, own, count, got)) && CopiedOut(m, inner, count, got)
    ensures forall i | 0 <= i < count :: Matches(Block(inner, count, got)[i], m.log, own + i)
  {
  }

  lemma DeliverBooks(l: Ledger, log: seq<Frame>, own: nat, inner: Inner, block: seq<Frame>)
    requires |block| <= inner.frames && own + |block| <= |log|
    requires LedgerInv(l, log, own, inner.frames + inner.insert)
    requires forall i | 0 <= i < |block| :: Matches(block[i], log, own + i)
    ensures LedgerInv(Booked(l, inner, block), log, own + |block|, inner.insert)
  {
    var item := Real(inner.width, block);
    Append(l.history, item, log);
    Append(l.history + [item], Silent(inner.frames - |block|), log);
  }

  lemma TailReady(m: Memory, block: seq<Frame>, own: nat, insert: nat)
    requires Shaped(m) && m.readPos == own + |block|
    requires forall i | 0 <= i < |block| :: Matches(block[i], m.log, own + i)
    ensures ReaderInv(m, RTail(insert, LastOf(block)))
  {
  }

  /** Storing read_pos delivers exactly the frames of the log at the positions it passes. */
  lemma Delivered(m: Memory, l: Ledger, overruns: nat, w: Writer, inner: Inner, own: nat, block: seq<Frame>)
    requires Shaped(m) && Stored(m) && WriterInv(m, w)
    requires own == m.readPos && own + |block| <= m.writePos && |block| <= inner.frames
    requires forall i | 0 <= i < |block| :: Matches(block[i], m.log, own + i)
    requires LedgerInv(l, m.log, own, inner.frames + inner.insert)
    ensures Inv(Deliver(m, l, overruns, w, inner, own, block))
  {
    ForwardKeeps(m, w, own + |block|);
    DeliverBooks(l, m.log, own, inner, block);
    TailReady(m.(readPos := own + |block|), block, own, inner.insert);
    Assemble(Deliver(m, l, overruns, w, inner, own, block));
  }

  lemma DeliverKeeps(s: State)
    requires Inv(s) && s.r.RCopy? && CopiedOut(s.m, s.r.inner, s.r.count, s.r.got)
    ensures Inv(ReaderStep(s))
  {
    BlockMatches(s.m, s.r.inner, s.r.own, s.r.count, s.r.got);
    Delivered(s.m, s.l, s.overruns, s.w, s.r.inner, s.r.own, Block(s.r.inner, s.r.count, s.r.got));
  }

  lemma DropBooks(l: Ledger, log: seq<Frame>, own: nat, owed: nat, n: nat)
    requires LedgerInv(l, log, own, owed)
    ensures LedgerInv(l.(droppedFrames := l.droppedFrames + n, history := l.history + [Dropped(n)]), log, own + n, owed)
  {
    Append(l.history, Dropped(n), log);
  }

  lemma SkipBooks(l: Ledger, log: seq<Frame>, own: nat, owed: nat, n: nat)
    requires LedgerInv(l, log, own, owed)
    ensures LedgerInv(l.(resets := l.resets + 1, history := l.history + [Skipped(n)]), log, own + n, owed)
  {
    Append(l.history, Skipped(n), log);
  }

  /** read_pos moves forward to `to`, the ledger to l, and the reader to r. */
  lemma Moved(m: Memory, l: Ledger, overruns: nat, w: Writer, to: nat, r: Reader)
    requires Shaped(m) && Stored(m) && WriterInv(m, w) && m.readPos <= to <= m.writePos
    requires LedgerInv(l, m.log, to, Owed(r)) && (r.ROwn? || r.RIdle?)
    ensures Inv(State(m.(readPos := to), l, overruns, w, r))
  {
    ForwardKeeps(m, w, to);
    Assemble(State(m.(readPos := to), l, overruns, w, r));
  }

  lemma DropKeeps(s: State)
    requires Inv(s) && s.r.RDrop?
    ensures Inv(ReaderStep(s))
  {
    DropBooks(s.l, s.m.log, s.r.own, Owed(s.r), s.r.drop);
    Moved(s.m, ReaderStep(s).l, s.overruns, s.w, s.r.own + s.r.drop, ROwn(s.r.inner));
  }

  lemma SeekKeeps(s: State)
    requires Inv(s) && s.r.SStore?
    ensures Inv(ReaderStep(s))
  {
    SkipBooks(s.l, s.m.log, s.r.own, 0, s.r.next - s.r.own);
    Moved(s.m, ReaderStep(s).l, s.overruns, s.w, s.r.next, RIdle);
  }

  lemma TailKeeps(s: State)
    requires Inv(s) && s.r.RTail?
    ensures Inv(ReaderStep(s))
  {
    var item := if |s.r.last| > 0 then Copies(s.r.insert, s.r.last[0]) else Silent(s.r.insert);
    Append(s.l.history, item, s.m.log);
  }

  lemma LoadKeeps(s: State)
    requires Inv(s) && !s.r.RDrop? && !s.r.SStore? && !s.r.RCopy? && !s.r.RTail?
    ensures Inv(ReaderStep(s))
  {
    var t := ReaderStep(s);
    assert t.m == s.m && t.l == s.l && t.w == s.w && Owed(t.r) == Owed(s.r);
  }

  lemma ReaderKeeps(s: State)
    requires Inv(s)
    ensures Inv(ReaderStep(s))
  {
    if s.r.RDrop? {
      DropKeeps(s);
    } else if s.r.SStore? {
      SeekKeeps(s);
    } else if s.r.RTail? {
      TailKeeps(s);
    } else if !s.r.RCopy? {
      LoadKeeps(s);
    } else if CopiedOut(s.m, s.r.inner, s.r.count, s.r.got) {
      DeliverKeeps(s);
    }
  }

  lemma CallKeeps(s: State, a: Action)
    requires Inv(s) && (a.CallWrite? || a.CallReader?)
    ensures Inv(Next(s, a))
  {
    var t := Next(s, a);
    assert t.m == s.m;
    assert t.l == s.l || (t.l.history == s.l.history && t.l.requested + Owed(s.r) == s.l.requested + Owed(t.r));
    Assemble(t);
  }

  lemma NextKeeps(s: State, a: Action)
    requires Inv(s)
    ensures Inv(Next(s, a))
  {
    match a
    case CallWrite(_) => CallKeeps(s, a);
    case WriterMoves => WriterKeeps(s);
    case CopyIn(i, ch) => CopyInKeeps(s, i, ch);
    case CallReader(_) => CallKeeps(s, a);
    case ReaderMoves => ReaderKeeps(s);
    case CopyOut(i, ch) => CopyOutKeeps(s, i, ch);
  }

  lemma NextGeometry(s: State, a: Action)
    ensures Next(s, a).m.channels == s.m.channels && Next(s, a).m.capacity == s.m.capacity
  {
  }

  // ----- blocks have the width of their calls -----

  /** The width of every block delivered so far, in order. */
  function WidthsOf(h: seq<Item>): seq<nat> {
    if h == [] then []
    else if h[|h| - 1].Real? then WidthsOf(h[..|h| - 1]) + [h[|h| - 1].width]
    else WidthsOf(h[..|h| - 1])
  }

  /** The width of the block the running call has still to deliver. */
  function Pending(r: Reader): seq<nat> {
    match r
    case RMeasure(req) => if req.Regulated? then [req.width] else []
    case RBranch(req, _) => if req.Regulated? then [req.width] else []
    case RDrop(_, _, inner) => [inner.width]
    case ROwn(inner) => [inner.width]
    case RPeer(inner, _) => [inner.width]
    case RCopy(inner, _, _, _) => [inner.width]
    case _ => []
  }

  /** The frame the tail is about to copy. */
  function TailOf(r: Reader): seq<Frame> { if r.RTail? then r.last else [] }

  /** The frame this item ended in, if it delivered any. */
  function LastFrame(item: Item): seq<Frame> { if item.Real? then LastOf(item.frames) else [] }

  /** Every frame of a block has the block's width, and copies repeat the last frame of the block before them. */
  ghost predicate ItemShaped(h: seq<Item>, k: nat)
    requires k < |h|
  {
    && (h[k].Real? ==> forall i | 0 <= i < |h[k].frames| :: |h[k].frames[i]| == h[k].width)
    && (h[k].Copies? ==> k >= 2 && LastFrame(h[k - 2]) == [h[k].frame])
  }

  ghost predicate WellShaped(h: seq<Item>) { forall k | 0 <= k < |h| :: ItemShaped(h, k) }

  /** Calls and blocks agree one by one in width; what the tail will copy ends the block before. */
  ghost predicate WidthInv(l: Ledger, r: Reader) {
    && WellShaped(l.history)
    && l.widths == WidthsOf(l.history) + Pending(r)
    && (TailOf(r) != [] ==> |l.history| >= 2 && LastFrame(l.history[|l.history| - 2]) == TailOf(r))
  }

  lemma ShapeBefore(h: seq<Item>, item: Item, k: nat)
    requires k < |h| && ItemShaped(h, k)
    ensures ItemShaped(h + [item], k)
  {
    assert (h + [item])[k] == h[k] && (k >= 2 ==> (h + [item])[k - 2] == h[k - 2]);
  }

  lemma ShapeLast(h: seq<Item>, item: Item)
    requires item.Real? ==> forall i | 0 <= i < |item.frames| :: |item.frames[i]| == item.width
    requires item.Copies? ==> |h| >= 2 && LastFrame(h[|h| - 2]) == [item.frame]
    ensures ItemShaped(h + [item], |h|)
  {
    assert (h + [item])[|h|] == item && (|h| >= 2 ==> (h + [item])[|h| - 2] == h[|h| - 2]);
  }

  lemma AppendWidth(h: seq<Item>, item: Item)
    ensures WidthsOf(h + [item]) == if item.Real? then WidthsOf(h) + [item.width] else WidthsOf(h)
  {
    assert (h + [item])[..|h|] == h;
  }

  lemma AppendShape(h: seq<Item>, item: Item)
    requires WellShaped(h)
    requires item.Real? ==> forall i | 0 <= i < |item.frames| :: |item.frames[i]| == item.width
    requires item.Copies? ==> |h| >= 2 && LastFrame(h[|h| - 2]) == [item.frame]
    ensures WellShaped(h + [item])
  {
    forall k | 0 <= k < |h + [item]| ensures ItemShaped(h + [item], k) {
      if k < |h| {
        ShapeBefore(h, item, k);
      } else {
        ShapeLast(h, item);
      }
    }
  }

  lemma BookedWidth(l: Ledger, inner: Inner, block: seq<Frame>)
    requires |block| <= inner.frames && WellShaped(l.history) && l.widths == WidthsOf(l.history) + [inner.width]
    requires forall i | 0 <= i < |block| :: |block[i]| == inner.width
    ensures WidthInv(Booked(l, inner, block), RTail(inner.insert, LastOf(block)))
  {
    var item, silent := Real(inner.width, block), Silent(inner.frames - |block|);
    AppendShape(l.history, item);
    AppendWidth(l.history, item);
    AppendShape(l.history + [item], silent);
    AppendWidth(l.history + [item], silent);
  }

  /** An item that is no block passes the pending width on. */
  lemma PassWidth(l: Ledger, r: Reader, item: Item, m: Ledger, q: Reader)
    requires WidthInv(l, r) && !item.Real? && m.history == l.history + [item] && m.widths == l.widths
    requires Pending(q) == Pending(r) && TailOf(q) == []
    requires item.Copies? ==> TailOf(r) == [item.frame]
    ensures WidthInv(m, q)
  {
    AppendShape(l.history, item);
    AppendWidth(l.history, item);
  }

  lemma ReaderWidth(s: State)
    requires WidthInv(s.l, s.r)
    ensures WidthInv(ReaderStep(s).l, ReaderStep(s).r)
  {
    var t := ReaderStep(s);
    match s.r
    case RCopy(inner, own, count, got) =>
      if CopiedOut(s.m, inner, count, got) && count <= inner.frames {
        BookedWidth(s.l, inner, Block(inner, count, got));
      }
    case RDrop(_, drop, _) => PassWidth(s.l, s.r, Dropped(drop), t.l, t.r);
    case RTail(insert, last) =>
      if |last| == 1 {
        PassWidth(s.l, s.r, Copies(insert, last[0]), t.l, t.r);
      } else if last == [] {
        PassWidth(s.l, s.r, Silent(insert), t.l, t.r);
      }
    case SStore(own, next) => if next >= own { PassWidth(s.l, s.r, Skipped(next - own), t.l, t.r); }
    case _ => PassOn(s);
  }

  /** The other steps append nothing. */
  lemma PassOn(s: State)
    requires !s.r.RCopy? && !s.r.RDrop? && !s.r.RTail? && !s.r.SStore?
    ensures ReaderStep(s).l == s.l && Pending(ReaderStep(s).r) == Pending(s.r) && TailOf(ReaderStep(s).r) == []
  {
  }

  lemma NextWidth(s: State, a: Action)
    requires WidthInv(s.l, s.r)
    ensures WidthInv(Next(s, a).l, Next(s, a).r)
  {
    match a
    case ReaderMoves => ReaderWidth(s);
    case CallReader(req) => if s.r.RIdle? { CallWidth(s.l, s.m.channels, req); }
    case CopyOut(_, _) =>
    case _ => WriterLeavesReader(s, a);
  }

  /** A call adds its width to the list and has it pending. */
  lemma CallWidth(l: Ledger, channels: nat, req: Request)
    requires WidthInv(l, RIdle)
    ensures req.Planar? ==> WidthInv(Asked(l, req.frames, channels), ROwn(Inner(channels, req.frames, 0, true)))
    ensures req.Interleaved? ==> WidthInv(Asked(l, req.frames, req.width), ROwn(Inner(req.width, req.frames, 0, false)))
    ensures req.Regulated? ==> WidthInv(Asked(l, req.frames, req.width), RMeasure(req))
  {
    assert WidthsOf(l.history) + [] == WidthsOf(l.history);
  }

  lemma WriterLeavesReader(s: State, a: Action)
    requires a.CallWrite? || a.WriterMoves? || a.CopyIn?
    ensures Next(s, a).l == s.l && Next(s, a).r == s.r
  {
  }

  lemma {:induction false} ExecWidth(s: State, actions: seq<Action>)
    requires WidthInv(s.l, s.r)
    ensures WidthInv(Exec(s, actions).l, Exec(s, actions).r)
  {
    if actions != [] {
      ExecWidth(s, actions[..|actions| - 1]);
      NextWidth(Exec(s, actions[..|actions| - 1]), actions[|actions| - 1]);
    }
  }

  // ----- main results -----

  lemma InitInv(channels: nat, capacity: nat)
    requires channels > 0 && capacity > 0
    ensures Inv(Init(channels, capacity))
  {
  }

  /** The invariant, for a ring of this geometry. */
  ghost predicate InvOf(s: State, channels: nat, capacity: nat) {
    Inv(s) && s.m.channels == channels && s.m.capacity == capacity
  }

  lemma StepKeeps(s: State, a: Action, channels: nat, capacity: nat)
    requires InvOf(s, channels, capacity)
    ensures InvOf(Next(s, a), channels, capacity)
  {
    NextKeeps(s, a);
    NextGeometry(s, a);
  }

  lemma {:induction false} ExecKeeps(s: State, actions: seq<Action>, channels: nat, capacity: nat)
    requires InvOf(s, channels, capacity)
    ensures InvOf(Exec(s, actions), channels, capacity)
  {
    if actions != [] {
      var front, a := actions[..|actions| - 1], actions[|actions| - 1];
      ExecKeeps(s, front, channels, capacity);
      StepKeeps(Exec(s, front), a, channels, capacity);
    }
  }

  lemma {:induction false} ExecInv(channels: nat, capacity: nat, actions: seq<Action>)
    requires channels > 0 && capacity > 0
    ensures InvOf(Exec(Init(channels, capacity), actions), channels, capacity)
  {
    InitInv(channels, capacity);
    ExecKeeps(Init(channels, capacity), actions, channels, capacity);
  }

  /**
    In every interleaving of one writer and one reader, positions stay within
    one lap of each other and the reader's output is the written stream in
    order: every delivered frame is the frame of the log at its absolute
    position in all channels the client asked for, with gaps only at drops and
    seeks; block by block the widths are those of the calls.
   */
  lemma {:induction false} AnyInterleavingIsFaithful(channels: nat, capacity: nat, actions: seq<Action>)
    requires channels > 0 && capacity > 0
    ensures var s := Exec(Init(channels, capacity), actions);
            && s.m.readPos <= s.m.writePos <= s.m.readPos + capacity
            && |s.m.log| == s.m.writePos
            && Faithful(s.l.history, s.m.log) && Advance(s.l.history) == s.m.readPos
            && WellShaped(s.l.history) && s.l.widths == WidthsOf(s.l.history) + Pending(s.r)
  {
    ExecInv(channels, capacity, actions);
    BlocksMatchCalls(channels, capacity, actions);
  }

  /** Calls and blocks agree one by one: the frames of a block have the width its call asked for. */
  lemma {:induction false} BlocksMatchCalls(channels: nat, capacity: nat, actions: seq<Action>)
    ensures var s := Exec(Init(channels, capacity), actions);
            WellShaped(s.l.history) && s.l.widths == WidthsOf(s.l.history) + Pending(s.r)
  {
    var s := Init(channels, capacity);
    assert WidthInv(s.l, s.r);
    ExecWidth(s, actions);
  }

  /** No sample is being written to a cell that the other side is reading. */
  lemma InFlightCellsDisjoint(channels: nat, capacity: nat, actions: seq<Action>, i: nat, j: nat)
    requires channels > 0 && capacity > 0
    requires var s := Exec(Init(channels, capacity), actions);
             s.w.WCopy? && s.r.RCopy? && i < |s.w.data| && j < s.r.count
    ensures var s := Exec(Init(channels, capacity), actions);
            s.m.capacity > 0 && WriterCell(s.m, s.w.base, i) != ReaderCell(s.m, s.r.inner, s.r.own, j)
  {
    ExecInv(channels, capacity, actions);
    var s := Exec(Init(channels, capacity), actions);
    CellsApart(s.m, s.w, s.r, i, j);
  }

  lemma CellsApart(m: Memory, w: Writer, r: Reader, i: nat, j: nat)
    requires Shaped(m) && WriterInv(m, w) && ReaderInv(m, r)
    requires w.WCopy? && r.RCopy? && i < |w.data| && j < r.count
    ensures WriterCell(m, w.base, i) != ReaderCell(m, r.inner, r.own, j)
  {
    SplitCellIsCell(w.base, i, m.capacity);
    SplitCellIsCell(r.own, j, m.capacity);
    CellDistinct(r.own + j, w.base + i, m.capacity);
  }

  /**
    Frames are conserved in every reachable state: each written frame was
    returned, dropped by the regulator, skipped by a seek or is still buffered;
    and each requested frame was real, a counted copy or silence, or is still
    owed by the call under way.
   */
  lemma {:induction false} FramesConserved(channels: nat, capacity: nat, actions: seq<Action>)
    requires channels > 0 && capacity > 0
    ensures var s := Exec(Init(channels, capacity), actions);
            var t := Tally(s.l.history);
            && s.m.writePos == t.returned + s.l.droppedFrames + t.skipped + (s.m.writePos - s.m.readPos)
            && s.l.requested == t.returned + s.l.insertedFrames + t.silent + Owed(s.r)
  {
    ExecInv(channels, capacity, actions);
  }
}

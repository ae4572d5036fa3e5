/**
  "Never blocks" of src/shared_audio.h, on the two-process protocol: from every
  reachable state a running call has a step of its own that brings it nearer
  its end, and nothing the other process does sets it back.
 */
module RingProgress {
  import opened Audio
  import opened RingProtocol

  /** The samples of a block. */
  ghost function Pairs(frames: nat, width: nat): set<(nat, nat)> {
    set i: nat, ch: nat | i < frames && ch < width :: (i, ch)
  }

  ghost function Row(i: nat, width: nat): set<(nat, nat)> { set ch: nat | ch < width :: (i, ch) }

  lemma {:induction false} RowSize(i: nat, width: nat)
    ensures |Row(i, width)| == width
  {
    if width > 0 {
      RowSize(i, width - 1);
      assert Row(i, width) == Row(i, width - 1) + {(i, width - 1)};
    }
  }

  lemma {:induction false} PairsSize(frames: nat, width: nat)
    ensures |Pairs(frames, width)| == Slot(frames, width, 0)
  {
    if frames > 0 {
      PairsSize(frames - 1, width);
      RowSize(frames - 1, width);
      var row := Row(frames - 1, width);
      assert Pairs(frames, width) == Pairs(frames - 1, width) + row;
      assert Pairs(frames - 1, width) !! row;
    }
  }

  lemma SubsetSize(a: set<(nat, nat)>, b: set<(nat, nat)>)
    requires a <= b
    ensures |a| <= |b| && (a != b ==> |a| < |b|)
  {
    assert b == a + (b - a);
    if a != b {
      var x :| x in b - a;
    }
  }

  // ----- the reader -----

  ghost function Copied(m: Memory, inner: Inner): nat { Min(m.channels, inner.width) }

  /** Samples the copy loop still has to take. */
  ghost function Missing(m: Memory, inner: Inner, count: nat, got: map<(nat, nat), real>): set<(nat, nat)> {
    Pairs(count, Copied(m, inner)) - got.Keys
  }

  ghost function InnerSteps(m: Memory, inner: Inner): nat { |Pairs(inner.frames, Copied(m, inner))| + 4 }

  /** Most steps a running reader call still needs. */
  ghost function ReaderLeft(m: Memory, r: Reader): nat {
    match r
    case RIdle => 0
    case RMeasure(req) => if req.Regulated? then |Pairs(req.frames, Min(m.channels, req.width))| + 7 else 0
    case RBranch(req, _) => if req.Regulated? then |Pairs(req.frames, Min(m.channels, req.width))| + 6 else 0
    case RDrop(_, _, inner) => InnerSteps(m, inner) + 1
    case ROwn(inner) => InnerSteps(m, inner)
    case RPeer(inner, _) => InnerSteps(m, inner) - 1
    case RCopy(inner, _, count, got) => |Missing(m, inner, count, got)| + 2
    case RTail(_, _) => 1
    case SPeer(_) => 3
    case SOwn(_, _) => 2
    case SStore(_, _) => 1
  }

  lemma PairsGrow(n: nat, frames: nat, width: nat)
    requires n <= frames
    ensures |Pairs(n, width)| <= |Pairs(frames, width)|
  {
    SubsetSize(Pairs(n, width), Pairs(frames, width));
  }

  lemma CopyOutAdvances(s: State, i: nat, ch: nat)
    requires Inv(s) && s.r.RCopy? && (i, ch) in Missing(s.m, s.r.inner, s.r.count, s.r.got)
    ensures ReaderLeft(s.m, CopyOutStep(s, i, ch).r) < ReaderLeft(s.m, s.r)
  {
    var inner, count, got := s.r.inner, s.r.count, s.r.got;
    SplitCellIsCell(s.r.own, i, s.m.capacity);
    var t := CopyOutStep(s, i, ch);
    assert t.r.RCopy? && t.r.got.Keys == got.Keys + {(i, ch)};
    SubsetSize(Missing(s.m, inner, count, t.r.got), Missing(s.m, inner, count, got));
  }

  /** With nothing missing, the store of read_pos is enabled. */
  lemma StoreAdvances(s: State)
    requires Inv(s) && s.r.RCopy? && Missing(s.m, s.r.inner, s.r.count, s.r.got) == {}
    ensures ReaderLeft(s.m, ReaderStep(s).r) < ReaderLeft(s.m, s.r)
  {
    var inner, count, got := s.r.inner, s.r.count, s.r.got;
    forall i, ch | 0 <= i < count && 0 <= ch < Min(s.m.channels, inner.width) ensures (i, ch) in got {
      assert (i, ch) in got || (i, ch) in Missing(s.m, inner, count, got);
    }
    assert ReaderStep(s).r.RTail?;
  }

  lemma BranchAdvances(s: State)
    requires Inv(s) && s.r.RBranch?
    ensures ReaderLeft(s.m, ReaderStep(s).r) < ReaderLeft(s.m, s.r)
  {
    PairsGrow(ReaderStep(s).r.inner.frames, s.r.req.frames, Min(s.m.channels, s.r.req.width));
  }

  lemma LoadAdvances(s: State)
    requires Inv(s) && s.r.RPeer?
    ensures ReaderLeft(s.m, ReaderStep(s).r) < ReaderLeft(s.m, s.r)
  {
    var count := ReaderStep(s).r.count;
    PairsGrow(count, s.r.inner.frames, Copied(s.m, s.r.inner));
    assert Missing(s.m, s.r.inner, count, map[]) == Pairs(count, Copied(s.m, s.r.inner));
  }

  lemma MoveAdvances(s: State)
    requires Inv(s) && !s.r.RIdle?
    requires s.r.RCopy? ==> Missing(s.m, s.r.inner, s.r.count, s.r.got) == {}
    ensures ReaderLeft(s.m, ReaderStep(s).r) < ReaderLeft(s.m, s.r)
  {
    if s.r.RCopy? {
      StoreAdvances(s);
    } else if s.r.RBranch? {
      BranchAdvances(s);
    } else if s.r.RPeer? {
      LoadAdvances(s);
    }
  }

  predicate OfReader(a: Action) { a.ReaderMoves? || a.CopyOut? }

  predicate OfWriter(a: Action) { a.CallWrite? || a.WriterMoves? || a.CopyIn? }

  /** Steps a call needs at most from where it starts, in closed form. */
  lemma ReaderCallBound(m: Memory, r: Reader, req: Request)
    requires r == CallReaderStep(State(m, Ledger(0, 0, 0, 0, [], 0, []), 0, WIdle, RIdle), req).r
    ensures req.Planar? ==> ReaderLeft(m, r) <= Slot(req.frames, m.channels, 0) + 4
    ensures req.Interleaved? || req.Regulated? ==>
              ReaderLeft(m, r) <= Slot(req.frames, Min(m.channels, req.width), 0) + 7
    ensures req.Seek? ==> ReaderLeft(m, r) == 3
  {
    match req
    case Planar(frames) => PairsSize(frames, m.channels);
    case Interleaved(width, frames) => PairsSize(frames, Min(m.channels, width));
    case Regulated(width, frames, _, _) => PairsSize(frames, Min(m.channels, width));
    case Seek(_) =>
  }

  /**
    The reader never waits: in every reachable state in which a call is under
    way it can take a step that lowers its bound, and no step of the writer
    changes that bound.
   */
  lemma ReaderNeverBlocks(channels: nat, capacity: nat, actions: seq<Action>)
    requires channels > 0 && capacity > 0
    ensures var s := Exec(Init(channels, capacity), actions);
            && (!s.r.RIdle? ==>
                  exists a :: OfReader(a) && ReaderLeft(Next(s, a).m, Next(s, a).r) < ReaderLeft(s.m, s.r))
            && forall a | OfWriter(a) :: ReaderLeft(Next(s, a).m, Next(s, a).r) == ReaderLeft(s.m, s.r)
  {
    ExecInv(channels, capacity, actions);
    var s := Exec(Init(channels, capacity), actions);
    if !s.r.RIdle? {
      ReaderCanMove(s);
    }
    forall a | OfWriter(a)
      ensures ReaderLeft(Next(s, a).m, Next(s, a).r) == ReaderLeft(s.m, s.r)
    {
      NextGeometry(s, a);
      LeftByGeometry(s.m, Next(s, a).m, s.r);
    }
  }

  lemma LeftByGeometry(m: Memory, n: Memory, r: Reader)
    requires m.channels == n.channels
    ensures ReaderLeft(m, r) == ReaderLeft(n, r)
  {
  }

  lemma CopyCanMove(s: State)
    requires Inv(s) && s.r.RCopy? && Missing(s.m, s.r.inner, s.r.count, s.r.got) != {}
    ensures exists a :: OfReader(a) && ReaderLeft(Next(s, a).m, Next(s, a).r) < ReaderLeft(s.m, s.r)
  {
    var x :| x in Missing(s.m, s.r.inner, s.r.count, s.r.got);
    var a := CopyOut(x.0, x.1);
    CopyOutAdvances(s, x.0, x.1);
    NextGeometry(s, a);
    LeftByGeometry(s.m, Next(s, a).m, Next(s, a).r);
    assert OfReader(a);
  }

  lemma ReaderCanMove(s: State)
    requires Inv(s) && !s.r.RIdle?
    ensures exists a :: OfReader(a) && ReaderLeft(Next(s, a).m, Next(s, a).r) < ReaderLeft(s.m, s.r)
  {
    if s.r.RCopy? && Missing(s.m, s.r.inner, s.r.count, s.r.got) != {} {
      CopyCanMove(s);
    } else {
      MoveAdvances(s);
      NextGeometry(s, ReaderMoves);
      LeftByGeometry(s.m, Next(s, ReaderMoves).m, Next(s, ReaderMoves).r);
      assert OfReader(ReaderMoves);
    }
  }

  // ----- the writer -----

  ghost function Unwritten(m: Memory, data: seq<Frame>, done: set<(nat, nat)>): set<(nat, nat)> {
    Pairs(|data|, m.channels) - done
  }

  /** Most steps a running write still needs. */
  ghost function WriterLeft(m: Memory, w: Writer): nat {
    match w
    case WIdle => 0
    case WOwn(data) => |Pairs(|data|, m.channels)| + 4
    case WPeer(data, _) => |Pairs(|data|, m.channels)| + 3
    case WReload(data) => |Pairs(|data|, m.channels)| + 2
    case WCopy(data, _, done) => |Unwritten(m, data, done)| + 1
  }

  lemma CopyInAdvances(s: State, i: nat, ch: nat)
    requires Inv(s) && s.w.WCopy? && (i, ch) in Unwritten(s.m, s.w.data, s.w.done)
    ensures WriterLeft(s.m, CopyInStep(s, i, ch).w) < WriterLeft(s.m, s.w)
  {
    var data, done := s.w.data, s.w.done;
    SplitCellIsCell(s.w.base, i, s.m.capacity);
    SubsetSize(Unwritten(s.m, data, done + {(i, ch)}), Unwritten(s.m, data, done));
  }

  lemma WriterMoveAdvances(s: State)
    requires Inv(s) && !s.w.WIdle?
    requires s.w.WCopy? ==> Unwritten(s.m, s.w.data, s.w.done) == {}
    ensures WriterLeft(s.m, WriterStep(s).w) < WriterLeft(s.m, s.w)
  {
    match s.w
    case WCopy(data, _, done) =>
      forall i, ch | 0 <= i < |data| && 0 <= ch < s.m.channels ensures (i, ch) in done {
        assert (i, ch) in done || (i, ch) in Unwritten(s.m, data, done);
      }
    case WReload(data) =>
      SubsetSize(Unwritten(s.m, data, {}), Pairs(|data|, s.m.channels));
    case _ =>
  }

  lemma WriterCanMove(s: State)
    requires Inv(s) && !s.w.WIdle?
    ensures exists a :: OfWriter(a) && WriterLeft(Next(s, a).m, Next(s, a).w) < WriterLeft(s.m, s.w)
  {
    var a := WriterMoves;
    if s.w.WCopy? && Unwritten(s.m, s.w.data, s.w.done) != {} {
      var x :| x in Unwritten(s.m, s.w.data, s.w.done);
      a := CopyIn(x.0, x.1);
      CopyInAdvances(s, x.0, x.1);
    } else {
      WriterMoveAdvances(s);
    }
    NextGeometry(s, a);
    assert OfWriter(a);
  }

  lemma ReaderLeavesWriter(s: State, a: Action)
    requires OfReader(a) || a.CallReader?
    ensures Next(s, a).w == s.w
  {
  }

  lemma WriterLeftByGeometry(m: Memory, n: Memory, w: Writer)
    requires m.channels == n.channels
    ensures WriterLeft(m, w) == WriterLeft(n, w)
  {
  }

  /** Nor does the writer; the bound of a write starts at one step per sample plus four. */
  lemma {:induction false} WriterNeverBlocks(channels: nat, capacity: nat, actions: seq<Action>)
    requires channels > 0 && capacity > 0
    ensures var s := Exec(Init(channels, capacity), actions);
            && (!s.w.WIdle? ==>
                  exists a :: OfWriter(a) && WriterLeft(Next(s, a).m, Next(s, a).w) < WriterLeft(s.m, s.w))
            && (s.w.WOwn? ==> WriterLeft(s.m, s.w) == Slot(|s.w.data|, channels, 0) + 4)
            && forall a | OfReader(a) || a.CallReader? ::
                 WriterLeft(Next(s, a).m, Next(s, a).w) == WriterLeft(s.m, s.w)
  {
    ExecInv(channels, capacity, actions);
    var s := Exec(Init(channels, capacity), actions);
    if !s.w.WIdle? {
      WriterCanMove(s);
    }
    if s.w.WOwn? {
      PairsSize(|s.w.data|, channels);
    }
    forall a | OfReader(a) || a.CallReader?
      ensures WriterLeft(Next(s, a).m, Next(s, a).w) == WriterLeft(s.m, s.w)
    {
      NextGeometry(s, a);
      ReaderLeavesWriter(s, a);
      WriterLeftByGeometry(s.m, Next(s, a).m, s.w);
    }
  }
}

/**
  What one call of the two-process protocol does from its start to its end,
  while the other process moves as it likes: how many frames a read takes, how
  much the regulator drops and inserts, where a seek lands, and when a write is
  refused, all in terms of positions that were the other side's at an instant of
  the call. With the other side at rest these are the contracts of SharedRing.
 */
module RingCalls {
  import opened Audio
  import opened Regulation
  import opened RingProtocol

  /** The state after the first n of these actions. */
  ghost function At(s: State, actions: seq<Action>, n: nat): State
    requires n <= |actions|
  {
    if n == 0 then s else Next(At(s, actions, n - 1), actions[n - 1])
  }

  lemma {:induction false} AtIsExec(s: State, actions: seq<Action>, n: nat)
    requires n <= |actions|
    ensures At(s, actions, n) == Exec(s, actions[..n])
  {
    if n > 0 {
      AtIsExec(s, actions, n - 1);
      ExecStep(s, actions[..n], n - 1);
      assert actions[..n][..n - 1] == actions[..n - 1];
    }
  }

  lemma ExecStep(s: State, actions: seq<Action>, n: nat)
    requires n + 1 == |actions|
    ensures Exec(s, actions) == Next(Exec(s, actions[..n]), actions[n])
  {
  }

  /** Within the first n actions there was an instant at which write_pos was w; and read_pos was r. */
  ghost predicate WroteTo(s: State, actions: seq<Action>, n: nat, w: nat)
    requires n <= |actions|
  {
    exists k :: 0 <= k <= n && At(s, actions, k).m.writePos == w
  }

  ghost predicate ReadTo(s: State, actions: seq<Action>, n: nat, r: nat)
    requires n <= |actions|
  {
    exists k :: 0 <= k <= n && At(s, actions, k).m.readPos == r
  }

  lemma {:induction false} StaysSound(s: State, actions: seq<Action>, n: nat)
    requires Inv(s) && n <= |actions|
    ensures Inv(At(s, actions, n))
  {
    AtIsExec(s, actions, n);
    ExecKeeps(s, actions[..n], s.m.channels, s.m.capacity);
  }

  // ----- the reader -----

  /** The reader's side of the state when the call was made. */
  datatype Before = Before(req: Request, channels: nat, ledger: Ledger, pos: nat)

  /** The positions a call loaded: at the regulator's branch, and at the read or seek itself. */
  datatype Loaded = Loaded(branch: nat, read: nat)

  /** The correction of a regulated call that found write_pos at w. */
  function CorrectionAt(b: Before, w: nat): (c: Correction)
    ensures !b.req.Regulated? ==> c == Correction(0, 0)
    ensures b.req.Regulated? ==> c.insert <= b.req.frames
  {
    if b.req.Regulated? && b.pos <= w then Correct(w - b.pos, b.req.frames, b.req.target, b.req.tolerance)
    else Correction(0, 0)
  }

  function Asks(b: Before, c: Correction): Inner
    requires b.req.Regulated? ==> c.insert <= b.req.frames
  {
    match b.req
    case Planar(frames) => Inner(b.channels, frames, 0, true)
    case Interleaved(width, frames) => Inner(width, frames, 0, false)
    case Regulated(width, frames, _, _) => Inner(width, frames - c.insert, c.insert, false)
    case Seek(_) => Inner(0, 0, 0, false)
  }

  function Dropping(h: seq<Item>, drop: nat): seq<Item> { if drop > 0 then h + [Dropped(drop)] else h }

  /** The history after the store of read_pos, and at the end of the call. */
  function Booking(h: seq<Item>, inner: Inner, block: seq<Frame>): seq<Item>
    requires |block| <= inner.frames
  {
    h + [Real(inner.width, block)] + [Silent(inner.frames - |block|)]
  }

  function Tail(insert: nat, block: seq<Frame>): Item {
    if |block| > 0 then Copies(insert, block[|block| - 1]) else Silent(insert)
  }

  /** The block is what was there between read_pos and the position loaded, as far as it was asked for. */
  predicate Taken(b: Before, w: Loaded, block: seq<Frame>) {
    var c := CorrectionAt(b, w.branch);
    b.pos + c.drop <= w.read && |block| == Min(w.read - (b.pos + c.drop), Asks(b, c).frames)
  }

  /** A whole call: what it appended to the history and where it left read_pos. */
  ghost predicate Served(b: Before, w: Loaded, block: seq<Frame>, l: Ledger, pos: nat) {
    if b.req.Seek? then
      && b.pos <= w.read && pos == w.read - Min(w.read - b.pos, b.req.target)
      && l.history == b.ledger.history + [Skipped(pos - b.pos)]
      && l.resets == b.ledger.resets + 1 && l.underruns == b.ledger.underruns
    else
      var c := CorrectionAt(b, w.branch);
      var inner := Asks(b, c);
      && Taken(b, w, block) && pos == b.pos + c.drop + |block|
      && l.history == Booking(Dropping(b.ledger.history, c.drop), inner, block) + [Tail(inner.insert, block)]
      && l.resets == b.ledger.resets && l.underruns == b.ledger.underruns + Short(inner, block)
  }

  /** A read that comes up short counts one underrun. */
  function Short(inner: Inner, block: seq<Frame>): nat { if |block| < inner.frames then 1 else 0 }

  /** So far the call has appended nothing, or nothing but the drop. */
  predicate OnlyDropped(b: Before, l: Ledger, drop: nat) {
    && l.underruns == b.ledger.underruns && l.resets == b.ledger.resets
    && l.history == Dropping(b.ledger.history, drop)
  }

  predicate Untouched(b: Before, l: Ledger) { OnlyDropped(b, l, 0) }

  /** Where a call is, phase by phase. */
  ghost predicate Underway(b: Before, w: Loaded, block: seq<Frame>, r: Reader, l: Ledger, pos: nat) {
    var c := CorrectionAt(b, w.branch);
    var inner := Asks(b, c);
    match r
    case RIdle => Served(b, w, block, l, pos)
    case RMeasure(req) => req == b.req && req.Regulated? && Untouched(b, l) && pos == b.pos
    case RBranch(req, own) => req == b.req && req.Regulated? && Untouched(b, l) && pos == own == b.pos
    case RDrop(own, drop, i) =>
      b.req.Regulated? && own == pos == b.pos && Untouched(b, l) && drop == c.drop > 0 && i == inner
    case ROwn(i) => !b.req.Seek? && i == inner && OnlyDropped(b, l, c.drop) && pos == b.pos + c.drop
    case RPeer(i, own) =>
      !b.req.Seek? && i == inner && OnlyDropped(b, l, c.drop) && own == pos == b.pos + c.drop
    case RCopy(i, own, count, _) =>
      && !b.req.Seek? && i == inner && OnlyDropped(b, l, c.drop) && own == pos == b.pos + c.drop
      && own <= w.read && count == Min(w.read - own, inner.frames)
    case RTail(insert, last) =>
      && !b.req.Seek? && Taken(b, w, block) && pos == b.pos + c.drop + |block| && insert == inner.insert
      && last == LastOf(block) && l.resets == b.ledger.resets && l.underruns == b.ledger.underruns + Short(inner, block)
      && l.history == Booking(Dropping(b.ledger.history, c.drop), inner, block)
    case SPeer(target) => b.req == Seek(target) && Untouched(b, l) && pos == b.pos
    case SOwn(target, peer) => b.req == Seek(target) && Untouched(b, l) && pos == b.pos <= w.read == peer
    case SStore(own, next) =>
      && b.req.Seek? && Untouched(b, l) && own == pos == b.pos <= w.read
      && next == w.read - Min(w.read - b.pos, b.req.target)
  }

  function BeforeCall(s: State, req: Request): Before { Before(req, s.m.channels, s.l, s.m.readPos) }

  lemma CallBegins(s: State, req: Request)
    requires s.r.RIdle?
    ensures var t := Next(s, CallReader(req)); var w := s.m.writePos;
            && t.m == s.m && !t.r.RIdle?
            && Underway(BeforeCall(s, req), Loaded(w, w), [], t.r, t.l, t.m.readPos)
  {
    var t := Next(s, CallReader(req));
    match req
    case Planar(frames) => assert t.r == ROwn(Inner(s.m.channels, frames, 0, true));
    case Interleaved(width, frames) => assert t.r == ROwn(Inner(width, frames, 0, false));
    case Regulated(_, _, _, _) => assert t.r == RMeasure(req);
    case Seek(target) => assert t.r == SPeer(target);
  }

  /** What a step of the call loads, and what it delivers. */
  function LoadedBy(r: Reader, w: Loaded, writePos: nat): Loaded {
    if r.RBranch? then Loaded(writePos, writePos)
    else if r.RPeer? || r.SPeer? then w.(read := writePos)
    else w
  }

  function DeliveredBy(m: Memory, r: Reader, block: seq<Frame>): seq<Frame> {
    if r.RCopy? && CopiedOut(m, r.inner, r.count, r.got) then Block(r.inner, r.count, r.got) else block
  }

  lemma LoadGoesOn(b: Before, w: Loaded, block: seq<Frame>, s: State)
    requires s.m.readPos <= s.m.writePos && Underway(b, w, block, s.r, s.l, s.m.readPos)
    requires s.r.RMeasure? || s.r.RBranch? || s.r.ROwn? || s.r.RPeer? || s.r.SPeer? || s.r.SOwn?
    ensures var t := ReaderStep(s);
            Underway(b, LoadedBy(s.r, w, s.m.writePos), block, t.r, t.l, t.m.readPos)
  {
  }

  lemma DeliveryGoesOn(b: Before, w: Loaded, block: seq<Frame>, s: State)
    requires s.r.RCopy? && Underway(b, w, block, s.r, s.l, s.m.readPos)
    ensures var t := ReaderStep(s); Underway(b, w, DeliveredBy(s.m, s.r, block), t.r, t.l, t.m.readPos)
  {
  }

  lemma StoreGoesOn(b: Before, w: Loaded, block: seq<Frame>, s: State)
    requires Underway(b, w, block, s.r, s.l, s.m.readPos) && (s.r.RDrop? || s.r.RTail? || s.r.SStore?)
    ensures var t := ReaderStep(s); Underway(b, w, block, t.r, t.l, t.m.readPos)
  {
  }

  lemma ReaderGoesOn(b: Before, w: Loaded, block: seq<Frame>, s: State)
    requires s.m.readPos <= s.m.writePos && !s.r.RIdle? && Underway(b, w, block, s.r, s.l, s.m.readPos)
    ensures var t := ReaderStep(s);
            Underway(b, LoadedBy(s.r, w, s.m.writePos), DeliveredBy(s.m, s.r, block), t.r, t.l, t.m.readPos)
  {
    if s.r.RCopy? {
      DeliveryGoesOn(b, w, block, s);
    } else if s.r.RDrop? || s.r.RTail? || s.r.SStore? {
      StoreGoesOn(b, w, block, s);
    } else {
      LoadGoesOn(b, w, block, s);
    }
  }

  /** Any other step leaves the call where it is. */
  lemma OthersLeaveCall(b: Before, w: Loaded, block: seq<Frame>, s: State, a: Action)
    requires !s.r.RIdle? && !a.ReaderMoves? && Underway(b, w, block, s.r, s.l, s.m.readPos)
    ensures var t := Next(s, a); Underway(b, w, block, t.r, t.l, t.m.readPos)
  {
    if a.CopyOut? {
      var t := CopyOutStep(s, a.i, a.ch);
      assert t.l == s.l && t.m == s.m;
      assert t.r == s.r || (s.r.RCopy? && t.r.RCopy? && t.r == s.r.(got := t.r.got));
    } else {
      OthersLeaveReader(s, a);
    }
  }

  lemma OthersLeaveReader(s: State, a: Action)
    requires !s.r.RIdle? && !a.ReaderMoves? && !a.CopyOut?
    ensures var t := Next(s, a); t.r == s.r && t.l == s.l && t.m.readPos == s.m.readPos
  {
  }

  lemma WritePosGrows(s: State, a: Action)
    requires Inv(s)
    ensures s.m.writePos <= Next(s, a).m.writePos
  {
  }

  /** The call is under way until the n-th step at the earliest. */
  ghost predicate Busy(s: State, actions: seq<Action>, n: nat)
    requires n <= |actions|
  {
    forall k | 0 <= k < n :: !At(s, actions, k).r.RIdle?
  }

  /** Positions loaded during these steps, in order. */
  ghost predicate LoadedDuring(s: State, actions: seq<Action>, n: nat, w: Loaded)
    requires n <= |actions|
  {
    && s.m.writePos <= w.branch <= w.read <= At(s, actions, n).m.writePos
    && WroteTo(s, actions, n, w.branch) && WroteTo(s, actions, n, w.read)
  }

  lemma LoadedStep(s: State, actions: seq<Action>, n: nat, w: Loaded)
    requires n < |actions| && Inv(At(s, actions, n)) && LoadedDuring(s, actions, n, w)
    ensures LoadedDuring(s, actions, n + 1, w)
    ensures var t := At(s, actions, n); LoadedDuring(s, actions, n + 1, LoadedBy(t.r, w, t.m.writePos))
  {
    WritePosGrows(At(s, actions, n), actions[n]);
  }

  lemma CallGoesOn(b: Before, w: Loaded, block: seq<Frame>, t: State, a: Action) returns (v: Loaded, out: seq<Frame>)
    requires t.m.readPos <= t.m.writePos && !t.r.RIdle? && Underway(b, w, block, t.r, t.l, t.m.readPos)
    ensures var u := Next(t, a); Underway(b, v, out, u.r, u.l, u.m.readPos)
    ensures v == w || v == LoadedBy(t.r, w, t.m.writePos)
  {
    if a.ReaderMoves? {
      ReaderGoesOn(b, w, block, t);
      v, out := LoadedBy(t.r, w, t.m.writePos), DeliveredBy(t.m, t.r, block);
    } else {
      OthersLeaveCall(b, w, block, t, a);
      v, out := w, block;
    }
  }

  /** After n steps from s, the call is where Underway says, with what it loaded and took on the way. */
  ghost predicate Reached(b: Before, s: State, actions: seq<Action>, n: nat, w: Loaded, block: seq<Frame>)
    requires n <= |actions|
  {
    var t := At(s, actions, n);
    Underway(b, w, block, t.r, t.l, t.m.readPos) && LoadedDuring(s, actions, n, w)
  }

  lemma CallStep(b: Before, s: State, actions: seq<Action>, n: nat, w: Loaded, block: seq<Frame>)
    returns (v: Loaded, out: seq<Frame>)
    requires Inv(s) && n < |actions|
    requires Reached(b, s, actions, n, w, block) && !At(s, actions, n).r.RIdle?
    ensures Reached(b, s, actions, n + 1, v, out)
  {
    StaysSound(s, actions, n);
    LoadedStep(s, actions, n, w);
    v, out := CallGoesOn(b, w, block, At(s, actions, n), actions[n]);
  }

  /** From step k on, the call goes on to step n. */
  lemma {:induction false} CallRuns(b: Before, s: State, actions: seq<Action>, k: nat, n: nat,
                                    v: Loaded, had: seq<Frame>) returns (w: Loaded, block: seq<Frame>)
    requires Inv(s) && k <= n <= |actions| && Reached(b, s, actions, k, v, had)
    requires forall i | k <= i < n :: !At(s, actions, i).r.RIdle?
    decreases n - k
    ensures Reached(b, s, actions, n, w, block)
  {
    w, block := v, had;
    if k < n {
      w, block := CallStep(b, s, actions, k, v, had);
      w, block := CallRuns(b, s, actions, k + 1, n, w, block);
    }
  }

  lemma CallStarts(b: Before, s: State, actions: seq<Action>)
    requires Underway(b, Loaded(s.m.writePos, s.m.writePos), [], s.r, s.l, s.m.readPos)
    ensures Reached(b, s, actions, 0, Loaded(s.m.writePos, s.m.writePos), [])
  {
    assert At(s, actions, 0).m.writePos == s.m.writePos;
  }

  /**
    Every reader call, from any state the protocol can be in, whatever the
    writer does meanwhile: when it returns, after n steps, it has appended
    exactly what Served says, for positions that write_pos had during the call.
    A read that comes up short took all there was when it looked.
   */
  lemma {:induction false} CallServes(s: State, req: Request, actions: seq<Action>, n: nat)
    returns (w: Loaded, block: seq<Frame>)
    requires Inv(s) && s.r.RIdle? && n <= |actions| && Busy(Next(s, CallReader(req)), actions, n)
    requires At(Next(s, CallReader(req)), actions, n).r.RIdle?
    ensures var t := At(Next(s, CallReader(req)), actions, n);
            Served(BeforeCall(s, req), w, block, t.l, t.m.readPos)
    ensures s.m.readPos <= s.m.writePos <= w.branch <= w.read <= At(Next(s, CallReader(req)), actions, n).m.writePos
    ensures LoadedDuring(Next(s, CallReader(req)), actions, n, w)
  {
    CallBegins(s, req);
    NextKeeps(s, CallReader(req));
    CallStarts(BeforeCall(s, req), Next(s, CallReader(req)), actions);
    w, block := CallRuns(BeforeCall(s, req), Next(s, CallReader(req)), actions, 0, n,
                         Loaded(s.m.writePos, s.m.writePos), []);
  }

  /**
    With the writer at rest a planar or interleaved read takes exactly the fill
    or what it was asked for, whichever is less, a regulated one corrects by
    that fill, and a seek leaves the fill or its target.
   */
  lemma {:induction false} CallAlone(s: State, req: Request, actions: seq<Action>, n: nat) returns (block: seq<Frame>)
    requires Inv(s) && s.r.RIdle? && n <= |actions| && Busy(Next(s, CallReader(req)), actions, n)
    requires var t := At(Next(s, CallReader(req)), actions, n); t.r.RIdle? && t.m.writePos == s.m.writePos
    ensures var t := At(Next(s, CallReader(req)), actions, n);
            && s.m.readPos <= s.m.writePos
            && Served(BeforeCall(s, req), Loaded(s.m.writePos, s.m.writePos), block, t.l, t.m.readPos)
            && Alone(req, s.m.writePos - s.m.readPos, |block|, t.m.readPos - s.m.readPos)
  {
    var w;
    w, block := CallServes(s, req, actions, n);
    ghost var t := At(Next(s, CallReader(req)), actions, n);
    AloneFrom(BeforeCall(s, req), s.m.writePos, w, block, t.l, t.m.readPos, t.m.writePos);
  }

  /** Frames taken and frames passed by a call that finds `fill` frames. */
  predicate Alone(req: Request, fill: nat, taken: nat, passed: int) {
    match req
    case Planar(frames) => taken == passed == Min(fill, frames)
    case Interleaved(_, frames) => taken == passed == Min(fill, frames)
    case Seek(target) => passed == fill - Min(fill, target)
    case Regulated(_, frames, target, tolerance) =>
      var c := Correct(fill, frames, target, tolerance);
      taken == Min(fill - c.drop, frames - c.insert) && passed == c.drop + taken
  }

  lemma AloneFrom(b: Before, at: nat, w: Loaded, block: seq<Frame>, l: Ledger, pos: nat, end: nat)
    requires b.pos <= at <= w.branch <= w.read <= end == at && Served(b, w, block, l, pos)
    ensures Served(b, Loaded(at, at), block, l, pos) && Alone(b.req, at - b.pos, |block|, pos - b.pos)
  {
    assert w == Loaded(at, at);
  }

  // ----- the writer -----

  /** The writer's side of the state when the call was made. */
  datatype Wrote = Wrote(data: seq<Frame>, log: seq<Frame>, pos: nat, overruns: nat)

  /** There is room for the data when read_pos is at r. */
  predicate Room(b: Wrote, r: nat, capacity: nat) { b.pos - r + |b.data| <= capacity }

  /** A whole write: appended if there was room when it looked, and otherwise counted as an overrun. */
  predicate Answered(b: Wrote, r: nat, m: Memory, overruns: nat) {
    if Room(b, r, m.capacity) then m.log == b.log + b.data && m.writePos == b.pos + |b.data| && overruns == b.overruns
    else m.log == b.log && m.writePos == b.pos && overruns == b.overruns + 1
  }

  predicate Writing(b: Wrote, r: nat, w: Writer, m: Memory, overruns: nat) {
    if w.WIdle? then Answered(b, r, m, overruns)
    else
      && w.data == b.data && m.log == b.log && m.writePos == b.pos && overruns == b.overruns
      && (w.WPeer? ==> w.own == b.pos)
      && (w.WReload? || w.WCopy? ==> Room(b, r, m.capacity))
      && (w.WCopy? ==> w.base == b.pos)
  }

  lemma WriterGoesOn(b: Wrote, r: nat, s: State)
    requires !s.w.WIdle? && Writing(b, r, s.w, s.m, s.overruns)
    ensures var t := WriterStep(s); Writing(b, if s.w.WPeer? then s.m.readPos else r, t.w, t.m, t.overruns)
  {
  }

  /** Steps that are not the writer's own moves leave its call where it is. */
  lemma OthersLeaveWrite(b: Wrote, r: nat, s: State, a: Action)
    requires !s.w.WIdle? && !a.WriterMoves? && Writing(b, r, s.w, s.m, s.overruns)
    ensures var t := Next(s, a); Writing(b, r, t.w, t.m, t.overruns)
  {
    if a.CopyIn? {
      var t := CopyInStep(s, a.i, a.ch);
      assert t.m == s.m.(cells := t.m.cells) && t.overruns == s.overruns;
      assert t.w == s.w || (s.w.WCopy? && t.w.WCopy? && t.w == s.w.(done := t.w.done));
    } else {
      OthersLeaveWriter(s, a);
    }
  }

  lemma OthersLeaveWriter(s: State, a: Action)
    requires !s.w.WIdle? && !a.WriterMoves? && !a.CopyIn?
    ensures var t := Next(s, a);
            t.w == s.w && t.overruns == s.overruns && t.m == s.m.(readPos := t.m.readPos)
  {
  }

  ghost predicate BusyWriting(s: State, actions: seq<Action>, n: nat)
    requires n <= |actions|
  {
    forall k | 0 <= k < n :: !At(s, actions, k).w.WIdle?
  }

  /** After n steps from s, the write is where Writing says, having loaded r on the way. */
  ghost predicate GotTo(b: Wrote, s: State, actions: seq<Action>, n: nat, r: nat)
    requires n <= |actions|
  {
    var t := At(s, actions, n);
    Writing(b, r, t.w, t.m, t.overruns) && s.m.readPos <= r <= t.m.readPos && ReadTo(s, actions, n, r)
  }

  lemma WriteStep(b: Wrote, s: State, actions: seq<Action>, n: nat, r: nat) returns (q: nat)
    requires Inv(s) && n < |actions| && GotTo(b, s, actions, n, r) && !At(s, actions, n).w.WIdle?
    ensures GotTo(b, s, actions, n + 1, q)
  {
    StaysSound(s, actions, n);
    ReadPosGrows(At(s, actions, n), actions[n]);
    q := WriteGoesOn(b, r, At(s, actions, n), actions[n]);
  }

  lemma {:induction false} WriteRuns(b: Wrote, s: State, actions: seq<Action>, n: nat) returns (r: nat)
    requires Inv(s) && n <= |actions| && BusyWriting(s, actions, n) && Writing(b, s.m.readPos, s.w, s.m, s.overruns)
    decreases n
    ensures GotTo(b, s, actions, n, r)
  {
    if n == 0 {
      r := s.m.readPos;
      assert At(s, actions, 0).m.readPos == r;
    } else {
      var q := WriteRuns(b, s, actions, n - 1);
      r := WriteStep(b, s, actions, n - 1, q);
    }
  }

  lemma ReadPosGrows(s: State, a: Action)
    requires Inv(s)
    ensures s.m.readPos <= Next(s, a).m.readPos
  {
  }

  lemma WriteGoesOn(b: Wrote, r: nat, t: State, a: Action) returns (q: nat)
    requires !t.w.WIdle? && Writing(b, r, t.w, t.m, t.overruns)
    ensures var u := Next(t, a); Writing(b, q, u.w, u.m, u.overruns)
    ensures q == r || q == t.m.readPos
  {
    if a.WriterMoves? {
      WriterGoesOn(b, r, t);
      q := if t.w.WPeer? then t.m.readPos else r;
    } else {
      OthersLeaveWrite(b, r, t, a);
      q := r;
    }
  }

  /**
    Every write, whatever the reader does meanwhile: when it returns, after n
    steps, it has appended all of its data if there was room for it behind a
    position that read_pos had during the call, and otherwise nothing.
   */
  lemma {:induction false} WriteAnswers(s: State, data: seq<Frame>, actions: seq<Action>, n: nat) returns (r: nat)
    requires Inv(s) && s.w.WIdle? && FramesOf(data, s.m.channels)
    requires n <= |actions| && BusyWriting(Next(s, CallWrite(data)), actions, n)
    requires At(Next(s, CallWrite(data)), actions, n).w.WIdle?
    ensures var t := At(Next(s, CallWrite(data)), actions, n);
            && Answered(Wrote(data, s.m.log, s.m.writePos, s.overruns), r, t.m, t.overruns)
            && s.m.readPos <= r <= t.m.readPos
    ensures ReadTo(Next(s, CallWrite(data)), actions, n, r)
  {
    NextKeeps(s, CallWrite(data));
    r := WriteRuns(Wrote(data, s.m.log, s.m.writePos, s.overruns), Next(s, CallWrite(data)), actions, n);
  }
}

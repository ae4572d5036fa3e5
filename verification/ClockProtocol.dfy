/**
  The clock observations of src/shared_audio.c: the daemon's publisher and the
  driver's reader share a sequence number and two words, and every load and
  store is a step of its own. Around them run the two things the daemon feeds
  in: the host clock, and the ring's write position.
 */
module ClockProtocol {

  /** "sample_pos was written at host_time". */
  datatype Pair = Pair(time: nat, pos: nat)

  /** shared_audio_publish_clock, called by the daemon after a successful write. */
  datatype Publisher =
    | PIdle
    | PSample                        // next: read the host clock and write_pos
    | PLoad(pair: Pair)              // next: load clock_seq
    | PMark(pair: Pair, seqNo: nat)  // next: store the odd number
    | PTime(pair: Pair, seqNo: nat)  // next: store the time
    | PPos(pair: Pair, seqNo: nat)   // next: store the position
    | PDone(pair: Pair, seqNo: nat)  // next: store the even number

  /** shared_audio_get_clock; `since` is the number of publishes complete when the call began. */
  datatype Getter =
    | GIdle
    | GSeq(attempt: nat, since: nat)
    | GTime(attempt: nat, since: nat, seqNo: nat)
    | GPos(attempt: nat, since: nat, seqNo: nat, time: nat)
    | GCheck(attempt: nat, since: nat, seqNo: nat, pair: Pair)

  /** What a call returned: nothing, or a pair together with the number of the publish it comes from. */
  datatype Outcome = Missed | Got(pair: Pair, index: nat, since: nat)

  /** Shared words, the daemon's side, and the log of complete publishes. */
  datatype Daemon = Daemon(now: nat, writePos: nat, seqNo: nat, time: nat, pos: nat, p: Publisher, pubs: seq<Pair>)

  datatype State = State(d: Daemon, g: Getter, results: seq<Outcome>)

  datatype Action = Tick(ticks: nat) | WriteFrames(frames: nat) | PublisherMoves | CallGet | GetterMoves

  const ATTEMPTS: nat := 16

  const INIT := State(Daemon(0, 0, 0, 0, 0, PIdle, []), GIdle, [])

  function PublisherStep(d: Daemon): Daemon {
    match d.p
    case PIdle => d
    case PSample => d.(p := PLoad(Pair(d.now, d.writePos)))
    case PLoad(pair) => d.(p := PMark(pair, d.seqNo))
    case PMark(pair, n) => d.(p := PTime(pair, n), seqNo := n + 1)
    case PTime(pair, n) => d.(p := PPos(pair, n), time := pair.time)
    case PPos(pair, n) => d.(p := PDone(pair, n), pos := pair.pos)
    case PDone(pair, n) => d.(p := PIdle, seqNo := n + 2, pubs := d.pubs + [pair])
  }

  /** The head of the retry loop. */
  function Retry(attempt: nat, since: nat, s: State): State {
    if attempt + 1 < ATTEMPTS then s.(g := GSeq(attempt + 1, since))
    else s.(g := GIdle, results := s.results + [Missed])
  }

  function GetterStep(s: State): State {
    match s.g
    case GIdle => s
    case GSeq(attempt, since) =>
      if s.d.seqNo == 0 then s.(g := GIdle, results := s.results + [Missed])
      else if s.d.seqNo % 2 == 1 then Retry(attempt, since, s)
      else s.(g := GTime(attempt, since, s.d.seqNo))
    case GTime(attempt, since, n) => s.(g := GPos(attempt, since, n, s.d.time))
    case GPos(attempt, since, n, t) => s.(g := GCheck(attempt, since, n, Pair(t, s.d.pos)))
    case GCheck(attempt, since, n, pair) =>
      if s.d.seqNo == n then s.(g := GIdle, results := s.results + [Got(pair, n / 2, since)])
      else Retry(attempt, since, s)
  }

  function Next(s: State, a: Action): State {
    match a
    case Tick(n) => s.(d := s.d.(now := s.d.now + n))
    case WriteFrames(n) => if s.d.p.PIdle? then s.(d := s.d.(writePos := s.d.writePos + n, p := PSample)) else s
    case PublisherMoves => s.(d := PublisherStep(s.d))
    case CallGet => if s.g.GIdle? then s.(g := GSeq(0, |s.d.pubs|)) else s
    case GetterMoves => GetterStep(s)
  }

  function Exec(actions: seq<Action>): State {
    if actions == [] then INIT else Next(Exec(actions[..|actions| - 1]), actions[|actions| - 1])
  }

  // ----- invariant -----

  predicate InOrder(a: Pair, b: Pair) { a.time <= b.time && a.pos <= b.pos }

  ghost predicate Sorted(pubs: seq<Pair>) {
    forall i, j | 0 <= i <= j < |pubs| :: InOrder(pubs[i], pubs[j])
  }

  /** The pair of the running publish comes after every earlier one and is not in the future. */
  ghost predicate Later(pair: Pair, d: Daemon) {
    && pair.time <= d.now && pair.pos == d.writePos
    && (|d.pubs| > 0 ==> InOrder(d.pubs[|d.pubs| - 1], pair))
  }

  predicate Stable(d: Daemon) { d.p.PIdle? || d.p.PSample? || d.p.PLoad? || d.p.PMark? }

  /** The two words hold the last complete publish, except while the next one is being stored. */
  ghost predicate PublisherInv(d: Daemon) {
    && (Stable(d) ==> d.seqNo == 2 * |d.pubs|)
    && (!Stable(d) ==> d.seqNo == 2 * |d.pubs| + 1)
    && (d.p.PMark? || d.p.PTime? || d.p.PPos? || d.p.PDone? ==> d.p.seqNo == 2 * |d.pubs|)
    && (|d.pubs| > 0 && (Stable(d) || d.p.PTime?) ==> Pair(d.time, d.pos) == d.pubs[|d.pubs| - 1])
    && (d.p.PPos? || d.p.PDone? ==> d.time == d.p.pair.time)
    && (d.p.PDone? ==> d.pos == d.p.pair.pos)
  }

  ghost predicate ClockInv(d: Daemon) {
    && Sorted(d.pubs)
    && (|d.pubs| > 0 ==> InOrder(d.pubs[|d.pubs| - 1], Pair(d.now, d.writePos)))
    && (!d.p.PIdle? && !d.p.PSample? ==> Later(d.p.pair, d))
  }

  /** A loaded sequence number names a complete publish; what was read since is part of it unless the number moved. */
  ghost predicate GetterInv(d: Daemon, g: Getter) {
    && (!g.GIdle? ==> g.since <= |d.pubs|)
    && (g.GTime? || g.GPos? || g.GCheck? ==>
          g.seqNo % 2 == 0 && 2 * g.since <= g.seqNo <= d.seqNo && 0 < g.seqNo)
    && (g.GPos? && g.seqNo == d.seqNo ==> g.time == d.time)
    && (g.GCheck? && g.seqNo == d.seqNo ==> g.pair == Pair(d.time, d.pos))
  }

  ghost predicate ResultInv(results: seq<Outcome>, pubs: seq<Pair>) {
    && (forall i | 0 <= i < |results| && results[i].Got? ::
          0 < results[i].index <= |pubs| && results[i].pair == pubs[results[i].index - 1]
          && results[i].since <= results[i].index)
    && (forall i, j | 0 <= i < j < |results| && results[i].Got? && results[j].Got? ::
          results[i].index <= results[j].index)
  }

  ghost predicate Inv(s: State) {
    PublisherInv(s.d) && ClockInv(s.d) && GetterInv(s.d, s.g) && ResultInv(s.results, s.d.pubs)
  }

  /** Completing a publish leaves every earlier one where it was. */
  lemma CompletionKeeps(d: Daemon)
    requires PublisherInv(d) && ClockInv(d) && d.p.PDone?
    ensures PublisherInv(PublisherStep(d)) && ClockInv(PublisherStep(d))
  {
    assert forall i | 0 <= i < |d.pubs| :: PublisherStep(d).pubs[i] == d.pubs[i];
  }

  lemma PublisherKeeps(d: Daemon, g: Getter)
    requires PublisherInv(d) && ClockInv(d) && GetterInv(d, g)
    ensures var n := PublisherStep(d); PublisherInv(n) && ClockInv(n) && GetterInv(n, g) && d.pubs <= n.pubs
  {
    if d.p.PDone? {
      CompletionKeeps(d);
    }
  }

  /**
    A successful call linearizes at its last load: at that instant the pair is
    the newest complete publish, and no later one has begun to overwrite it.
   */
  lemma SuccessIsCurrent(d: Daemon, g: Getter)
    requires PublisherInv(d) && GetterInv(d, g) && g.GCheck? && g.seqNo == d.seqNo
    ensures |d.pubs| > 0 && Stable(d) && g.seqNo / 2 == |d.pubs|
    ensures g.pair == d.pubs[|d.pubs| - 1]
  {
  }

  lemma ReportKeeps(results: seq<Outcome>, o: Outcome, pubs: seq<Pair>)
    requires ResultInv(results, pubs)
    requires o.Got? ==> o.since <= o.index == |pubs| && 0 < |pubs| && o.pair == pubs[|pubs| - 1]
    ensures ResultInv(results + [o], pubs)
  {
  }

  lemma GetterKeeps(s: State)
    requires Inv(s)
    ensures Inv(GetterStep(s))
  {
    ReportKeeps(s.results, Missed, s.d.pubs);
    if s.g.GCheck? && s.g.seqNo == s.d.seqNo {
      SuccessIsCurrent(s.d, s.g);
      ReportKeeps(s.results, Got(s.g.pair, |s.d.pubs|, s.g.since), s.d.pubs);
    }
  }

  lemma NextKeeps(s: State, a: Action)
    requires Inv(s)
    ensures Inv(Next(s, a))
  {
    match a
    case PublisherMoves =>
      PublisherKeeps(s.d, s.g);
      assert forall i | 0 <= i < |s.d.pubs| :: PublisherStep(s.d).pubs[i] == s.d.pubs[i];
    case GetterMoves => GetterKeeps(s);
    case _ =>
  }

  lemma {:induction false} ExecInv(actions: seq<Action>)
    ensures Inv(Exec(actions))
  {
    if actions != [] {
      ExecInv(actions[..|actions| - 1]);
      NextKeeps(Exec(actions[..|actions| - 1]), actions[|actions| - 1]);
    }
  }

  // ----- main results -----

  /**
    Under every interleaving a successful read returns both words of one single
    publish, no older than the last one complete when the call began, and
    successive successful reads never go back to an older publish.
   */
  lemma ReadsAreLinearizable(actions: seq<Action>, i: nat, j: nat)
    requires i <= j < |Exec(actions).results|
    requires Exec(actions).results[i].Got? && Exec(actions).results[j].Got?
    ensures var s := Exec(actions); var a, b := s.results[i], s.results[j];
            && 0 < a.index <= b.index <= |s.d.pubs|
            && a.pair == s.d.pubs[a.index - 1] && b.pair == s.d.pubs[b.index - 1]
            && a.since <= a.index && b.since <= b.index
  {
    ExecInv(actions);
  }

  /**
    The daemon publishes only after a write, from a clock that never runs
    backwards: what the driver observes is ordered in both words and never
    ahead of the ring or of the present.
   */
  lemma ObservationsAreOrdered(actions: seq<Action>, i: nat, j: nat)
    requires i <= j < |Exec(actions).results|
    requires Exec(actions).results[i].Got? && Exec(actions).results[j].Got?
    ensures var s := Exec(actions);
            && InOrder(s.results[i].pair, s.results[j].pair)
            && InOrder(s.results[j].pair, Pair(s.d.now, s.d.writePos))
  {
    ExecInv(actions);
    var s := Exec(actions);
    ReadsAreLinearizable(actions, i, j);
    assert InOrder(s.d.pubs[s.results[j].index - 1], s.d.pubs[|s.d.pubs| - 1]);
  }

  /** In every run, a read that is about to succeed reports the publish that is the newest at that very step. */
  lemma ReturnsTheCurrentPublish(actions: seq<Action>)
    requires var s := Exec(actions); s.g.GCheck? && s.g.seqNo == s.d.seqNo
    ensures var s := Exec(actions); var n := |s.d.pubs|;
            && n > 0 && s.g.since <= n
            && Next(s, GetterMoves).results == s.results + [Got(s.d.pubs[n - 1], n, s.g.since)]
  {
    ExecInv(actions);
    SuccessIsCurrent(Exec(actions).d, Exec(actions).g);
  }

  // ----- what is published -----

  /** At one instant of the run, after publish i and before the next, this was the host time and the write position. */
  ghost predicate WasTrue(actions: seq<Action>, pair: Pair, i: nat) {
    exists k :: 0 <= k <= |actions| && Instant(Exec(actions[..k]).d, pair, i)
  }

  predicate Instant(d: Daemon, pair: Pair, i: nat) { d.now == pair.time && d.writePos == pair.pos && |d.pubs| == i }

  lemma TrueLater(actions: seq<Action>, more: Action, pair: Pair, i: nat)
    requires WasTrue(actions, pair, i)
    ensures WasTrue(actions + [more], pair, i)
  {
    var k :| 0 <= k <= |actions| && Instant(Exec(actions[..k]).d, pair, i);
    assert (actions + [more])[..k] == actions[..k];
  }

  ghost predicate AllTrue(actions: seq<Action>, d: Daemon) {
    && (forall i | 0 <= i < |d.pubs| :: WasTrue(actions, d.pubs[i], i))
    && (!d.p.PIdle? && !d.p.PSample? ==> WasTrue(actions, d.p.pair, |d.pubs|))
  }

  /** A publisher step completes the pair it has, samples the present one, or passes its pair on. */
  lemma PublisherPairs(d: Daemon)
    ensures var e := PublisherStep(d);
            && (d.p.PDone? ==> e.pubs == d.pubs + [d.p.pair] && e.p.PIdle?)
            && (d.p.PSample? ==> e == d.(p := PLoad(Pair(d.now, d.writePos))))
            && (!d.p.PDone? && !d.p.PSample? ==>
                  && e.pubs == d.pubs && (d.p.PIdle? ==> e.p.PIdle?)
                  && (!d.p.PIdle? ==> !e.p.PIdle? && !e.p.PSample? && e.p.pair == d.p.pair))
  {
  }

  lemma AllTrueNext(actions: seq<Action>, s: State, a: Action)
    requires s == Exec(actions) && AllTrue(actions, s.d)
    ensures AllTrue(actions + [a], Next(s, a).d)
  {
    var d, e := s.d, Next(s, a).d;
    forall i | 0 <= i < |d.pubs| ensures WasTrue(actions + [a], d.pubs[i], i) {
      TrueLater(actions, a, d.pubs[i], i);
    }
    if !d.p.PIdle? && !d.p.PSample? {
      TrueLater(actions, a, d.p.pair, |d.pubs|);
    }
    if a.PublisherMoves? {
      PublisherPairs(d);
      if d.p.PSample? {
        assert (actions + [a])[..|actions|] == actions;
        assert Instant(Exec((actions + [a])[..|actions|]).d, e.p.pair, |d.pubs|);
      }
    }
  }

  lemma {:induction false} ExecAllTrue(actions: seq<Action>)
    ensures AllTrue(actions, Exec(actions).d)
  {
    if actions != [] {
      var front, a := actions[..|actions| - 1], actions[|actions| - 1];
      ExecAllTrue(front);
      AllTrueNext(front, Exec(front), a);
      assert front + [a] == actions;
    }
  }

  /**
    Every publish, and so every successful read, is the host time and the write
    position of one instant between the publish before it and its own end.
   */
  lemma {:induction false} ReadsTellTheTruth(actions: seq<Action>, i: nat)
    requires i < |Exec(actions).results| && Exec(actions).results[i].Got?
    ensures var o := Exec(actions).results[i]; 0 < o.index && WasTrue(actions, o.pair, o.index - 1)
  {
    ExecInv(actions);
    ExecAllTrue(actions);
    ReadsAreLinearizable(actions, i, i);
  }

  /** More steps from a state. */
  function Extend(s: State, actions: seq<Action>): State {
    if actions == [] then s else Next(Extend(s, actions[..|actions| - 1]), actions[|actions| - 1])
  }

  function GetterSteps(actions: seq<Action>): nat {
    if actions == [] then 0
    else GetterSteps(actions[..|actions| - 1]) + if actions[|actions| - 1].GetterMoves? then 1 else 0
  }

  /** Throughout these steps no publish is being stored. */
  ghost predicate NoOverlap(s: State, actions: seq<Action>) {
    forall k | 0 <= k <= |actions| :: Stable(Extend(s, actions[..k]).d)
  }

  lemma NoOverlapFront(s: State, actions: seq<Action>)
    requires NoOverlap(s, actions) && actions != []
    ensures NoOverlap(s, actions[..|actions| - 1]) && Stable(Extend(s, actions).d)
  {
    var front := actions[..|actions| - 1];
    assert actions[..|actions|] == actions;
    forall k | 0 <= k <= |front| ensures Stable(Extend(s, front[..k]).d) {
      assert front[..k] == actions[..k];
    }
  }

  /** The words of the last publish, as long as none is being stored. */
  predicate SameWords(d: Daemon, e: Daemon) {
    d.seqNo == e.seqNo && d.time == e.time && d.pos == e.pos && d.pubs == e.pubs
  }

  /** Where an attempt begun at `s` is after n of its loads. */
  predicate Underway(s: State, t: State, n: nat)
    requires s.g.GSeq?
  {
    var att, since, num := s.g.attempt, s.g.since, s.d.seqNo;
    && t.results == s.results && SameWords(s.d, t.d)
    && (n == 0 ==> t.g == s.g)
    && (n == 1 ==> t.g == GTime(att, since, num))
    && (n == 2 ==> t.g == GPos(att, since, num, s.d.time))
    && (n == 3 ==> t.g == GCheck(att, since, num, Pair(s.d.time, s.d.pos)))
  }

  lemma EvenNumber(d: Daemon)
    requires PublisherInv(d) && Stable(d) && |d.pubs| > 0
    ensures d.seqNo > 0 && d.seqNo % 2 == 0 && d.seqNo / 2 == |d.pubs| && Pair(d.time, d.pos) == d.pubs[|d.pubs| - 1]
  {
  }

  lemma StableStepKeepsWords(s: State, a: Action)
    requires Stable(s.d) && Stable(Next(s, a).d)
    ensures SameWords(s.d, Next(s, a).d)
  {
  }

  lemma OneMoreStep(s: State, t: State, n: nat, a: Action)
    requires s.g.GSeq? && Underway(s, t, n) && s.d.seqNo > 0 && s.d.seqNo % 2 == 0
    requires Stable(t.d) && Stable(Next(t, a).d) && n + (if a.GetterMoves? then 1 else 0) <= 3
    ensures Underway(s, Next(t, a), n + if a.GetterMoves? then 1 else 0)
  {
    StableStepKeepsWords(t, a);
  }

  lemma {:induction false} AttemptGoesOn(s: State, during: seq<Action>)
    requires Inv(s) && s.g.GSeq? && |s.d.pubs| > 0 && NoOverlap(s, during) && GetterSteps(during) <= 3
    ensures Underway(s, Extend(s, during), GetterSteps(during))
  {
    if during != [] {
      var front := during[..|during| - 1];
      NoOverlapFront(s, during);
      AttemptGoesOn(s, front);
      assert Stable(Extend(s, front[..|front|]).d) && front[..|front|] == front;
      assert Stable(Extend(s, during[..0]).d);
      EvenNumber(s.d);
      OneMoreStep(s, Extend(s, front), GetterSteps(front), during[|during| - 1]);
    }
  }

  /**
    With at least one complete publish and none being stored meanwhile, the
    attempt under way succeeds at its fourth load, however clock ticks, frame
    writes and the publisher's own preparations come between.
   */
  lemma {:induction false} UncontendedReadSucceeds(before: seq<Action>, during: seq<Action>)
    requires var s := Exec(before); s.g.GSeq? && |s.d.pubs| > 0 && NoOverlap(s, during)
    requires GetterSteps(during) == 3
    ensures var s := Exec(before); var n := |s.d.pubs|; var t := Extend(s, during + [GetterMoves]);
            t.g == GIdle && t.results == s.results + [Got(s.d.pubs[n - 1], n, s.g.since)]
  {
    var s := Exec(before);
    ExecInv(before);
    AttemptGoesOn(s, during);
    assert Stable(Extend(s, during[..0]).d);
    EvenNumber(s.d);
    assert (during + [GetterMoves])[..|during|] == during;
  }

  /** In particular when the publisher does not move at all. */
  lemma {:induction false} IdlePublisherDoesNotOverlap(s: State, during: seq<Action>)
    requires Stable(s.d) && forall i | 0 <= i < |during| :: !during[i].PublisherMoves?
    ensures NoOverlap(s, during)
  {
    if during != [] {
      var front := during[..|during| - 1];
      IdlePublisherDoesNotOverlap(s, front);
      forall k | 0 <= k <= |during| ensures Stable(Extend(s, during[..k]).d) {
        assert Stable(Extend(s, front[..|front|]).d) && front[..|front|] == front;
        if k < |during| {
          assert during[..k] == front[..k];
        } else {
          assert during[..k] == during && !during[|during| - 1].PublisherMoves?;
        }
      }
    }
  }

  /** A publisher that stops in the middle of an update makes every attempt fail, although older pairs exist. */
  lemma {:induction false} StalledPublisherIsMissed(s: State)
    requires Inv(s) && s.g.GSeq? && s.g.attempt < 16 && !Stable(s.d)
    decreases 16 - s.g.attempt
    ensures Repeat(s, 16 - s.g.attempt) == s.(g := GIdle, results := s.results + [Missed])
  {
    if s.g.attempt + 1 < ATTEMPTS {
      StalledPublisherIsMissed(GetterStep(s));
    }
  }

  /** The getter moves n times while the publisher stands still. */
  function Repeat(s: State, n: nat): State
    decreases n
  {
    if n == 0 then s else Repeat(GetterStep(s), n - 1)
  }
}

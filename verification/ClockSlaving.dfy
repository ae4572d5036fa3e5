/**
  The device clock over whole IO sessions: safety of the emitted timeline,
  accuracy of the slaved rate, and what the daemon's publishes guarantee the
  estimator.
 */
module ClockSlaving {
  import opened ClockProtocol
  import opened Timeline

  /** One GetZeroTimeStamp call: what the seqlock gave, and the host time it ran at. */
  datatype Query = Query(reading: Reading, now: nat)

  function Serve(c: Clock, q: Query): (d: Clock)
    requires RateOk(c)
    ensures RateOk(d)
  {
    Stamp(Observe(c, q.reading), q.now)
  }

  /** The clock after each call; lastHost, lastSample and seed are what the call returned. */
  function Play(c: Clock, qs: seq<Query>): (r: seq<Clock>)
    requires RateOk(c)
    decreases |qs|
    ensures |r| == |qs|
  {
    if qs == [] then [] else [Serve(c, qs[0])] + Play(Serve(c, qs[0]), qs[1..])
  }

  // ----- timeline safety -----

  ghost predicate InTime(qs: seq<Query>, t: nat) {
    && (forall i | 0 <= i < |qs| :: t <= qs[i].now < TWO64)
    && (forall i, j | 0 <= i <= j < |qs| :: qs[i].now <= qs[j].now)
  }

  /** What every emitted timestamp satisfies. */
  ghost predicate GoodStamp(e: Clock, s: Session, now: nat) {
    && e.lastHost <= now && (now - e.lastHost) as real < TicksPerPeriod(e.slaved) + 1.0
    && IsPeriodMultiple(e.lastSample)
    && WithinEnvelope(Low(e), High(e), e.lastHost - s.start, e.lastSample, e.seed - s.seed + 1)
  }

  predicate Before(a: Clock, b: Clock) {
    a.lastHost <= b.lastHost && a.lastSample <= b.lastSample && a.seed <= b.seed
  }

  /** The tick difference of this call does not wrap, and its guard against going backwards does not fire. */
  ghost predicate Unclamped(c: Clock, q: Query)
    requires RateOk(c)
  {
    var d := Observe(c, q.reading);
    var ticks := TicksPerPeriod(d.slaved);
    && d.anchorHost <= q.now && U64(q.now - d.anchorHost) == q.now - d.anchorHost
    && d.lastHost <= HostAfter(d.anchorHost, ticks, Periods(d.anchorHost, ticks, q.now))
  }

  lemma ServeSafe(c: Clock, s: Session, t: nat, q: Query)
    requires Good(c, s, t) && t <= q.now < TWO64
    ensures Good(Serve(c, q), s, q.now) && Before(c, Serve(c, q)) && GoodStamp(Serve(c, q), s, q.now)
    ensures Unclamped(c, q)
  {
    var d := Observe(c, q.reading);
    ObserveKeeps(c, s, t, q.reading);
    NeverBackwards(d, s, t, q.now);
    StampKeeps(d, s, t, q.now);
    StampEnvelope(d, s, t, q.now);
  }

  lemma InTimeRest(qs: seq<Query>, t: nat)
    requires InTime(qs, t) && qs != []
    ensures t <= qs[0].now < TWO64 && InTime(qs[1..], qs[0].now)
  {
  }

  /** The clock that call i finds. */
  function Found(c: Clock, qs: seq<Query>, i: nat): (d: Clock)
    requires RateOk(c) && i <= |qs|
    decreases i
    ensures RateOk(d)
  {
    if i == 0 then c else Found(Serve(c, qs[0]), qs[1..], i - 1)
  }

  /** Each call serves the clock the one before it left. */
  lemma {:induction false} PlayIsServed(c: Clock, qs: seq<Query>, i: nat)
    requires RateOk(c) && i < |qs|
    decreases i
    ensures Play(c, qs)[i] == Serve(Found(c, qs, i), qs[i]) == Found(c, qs, i + 1)
  {
    if i > 0 {
      PlayIsServed(Serve(c, qs[0]), qs[1..], i - 1);
    } else {
      assert Found(c, qs, 1) == Found(Serve(c, qs[0]), qs[1..], 0);
    }
  }

  lemma {:induction false} FoundGood(c: Clock, s: Session, t: nat, qs: seq<Query>, i: nat)
    requires Good(c, s, t) && InTime(qs, t) && i < |qs|
    decreases i
    ensures Unclamped(Found(c, qs, i), qs[i])
    ensures exists u: nat :: t <= u <= qs[i].now && Good(Found(c, qs, i), s, u)
  {
    InTimeRest(qs, t);
    ServeSafe(c, s, t, qs[0]);
    if i > 0 {
      FoundGood(Serve(c, qs[0]), s, qs[0].now, qs[1..], i - 1);
    }
  }

  lemma {:induction false} PlayAt(c: Clock, s: Session, t: nat, qs: seq<Query>, i: nat)
    requires Good(c, s, t) && InTime(qs, t) && i < |qs|
    decreases i
    ensures Before(c, Play(c, qs)[i]) && GoodStamp(Play(c, qs)[i], s, qs[i].now)
  {
    InTimeRest(qs, t);
    ServeSafe(c, s, t, qs[0]);
    if i > 0 {
      PlayAt(Serve(c, qs[0]), s, qs[0].now, qs[1..], i - 1);
    }
  }

  lemma {:induction false} PlayOrder(c: Clock, s: Session, t: nat, qs: seq<Query>, i: nat, j: nat)
    requires Good(c, s, t) && InTime(qs, t) && i <= j < |qs|
    decreases i
    ensures Before(Play(c, qs)[i], Play(c, qs)[j])
  {
    InTimeRest(qs, t);
    ServeSafe(c, s, t, qs[0]);
    if i > 0 {
      PlayOrder(Serve(c, qs[0]), s, qs[0].now, qs[1..], i - 1, j - 1);
    } else if j > 0 {
      PlayAt(Serve(c, qs[0]), s, qs[0].now, qs[1..], j - 1);
    }
  }

  /**
    A whole IO session, whatever the readings: host and sample times never
    decrease, each host time is in the past but less than a period and a tick
    old, each sample time is a multiple of the period, and after k changes of
    seed the host time gone by is within the rate clamp up to k + 1 ticks. The
    tick difference never wraps and the backwards clamp never fires.
   */
  lemma {:induction false} SessionIsSafe(before: Clock, start: nat, qs: seq<Query>, i: nat, j: nat)
    requires 0.0 < before.nominal && start < TWO64 && InTime(qs, start) && i <= j < |qs|
    ensures RateOk(Begin(before, start))
    ensures var stamps := Play(Begin(before, start), qs);
            && GoodStamp(stamps[j], Session(start, before.seed), qs[j].now)
            && Before(stamps[i], stamps[j])
            && Unclamped(Found(Begin(before, start), qs, j), qs[j])
            && stamps[j] == Serve(Found(Begin(before, start), qs, j), qs[j])
  {
    BeginIsGood(before, start);
    FoundGood(Begin(before, start), Session(start, before.seed), start, qs, j);
    PlayIsServed(Begin(before, start), qs, j);
    PlayAt(Begin(before, start), Session(start, before.seed), start, qs, j);
    PlayOrder(Begin(before, start), Session(start, before.seed), start, qs, i, j);
  }

  // ----- across sessions -----

  /** The timeline has not left its origin. */
  predicate AtOrigin(c: Clock, start: nat) {
    c.anchorHost == start && c.anchorSample == 0.0 && c.lastHost == start && c.lastSample == 0.0
  }

  /** The call comes less than one period, at the rate it uses, after the start. */
  predicate Early(e: Clock, start: nat, now: nat) { (now - start) as real < TicksPerPeriod(e.slaved) }

  lemma FirstPeriod(start: nat, d: real, now: nat)
    requires d > 0.0 && start <= now < TWO64
    ensures Periods(start, d, now) >= 0 && (Periods(start, d, now) == 0 <==> (now - start) as real < d)
  {
    PeriodsExact(start, d, now);
    NoPeriodYet((now - start) as real, d, Periods(start, d, now));
  }

  lemma NoPeriodYet(x: real, d: real, n: int)
    requires x >= 0.0 && d > 0.0 && n == (x / d).Floor
    ensures n >= 0 && (n == 0 <==> x < d)
  {
    Quotient(x, d, n);
    TicksSmall(d);
    if n >= 1 {
      TicksMono(1, n, d);
    }
  }

  /** From the origin, a call leaves it exactly when it is not early. */
  lemma LeavesOrigin(c: Clock, start: nat, q: Query)
    requires RateOk(c) && AtOrigin(c, start) && start <= q.now < TWO64
    ensures Early(Serve(c, q), start, q.now) ==> AtOrigin(Serve(c, q), start)
    ensures !Early(Serve(c, q), start, q.now) ==> Serve(c, q).lastSample > 0.0
  {
    var d := Observe(c, q.reading);
    var ticks := TicksPerPeriod(d.slaved);
    FirstPeriod(start, ticks, q.now);
    var n := Periods(start, ticks, q.now);
    TicksMono(0, n, ticks);
    TicksSmall(ticks);
    assert d.anchorHost == start && d.anchorSample == 0.0;
  }

  /** All calls up to i were early. */
  ghost predicate AllEarly(c: Clock, start: nat, qs: seq<Query>, i: nat)
    requires RateOk(c) && i < |qs|
  {
    forall k | 0 <= k <= i :: Early(Play(c, qs)[k], start, qs[k].now)
  }

  lemma AllEarlyRest(c: Clock, start: nat, qs: seq<Query>, i: nat)
    requires RateOk(c) && 0 < i < |qs|
    ensures AllEarly(c, start, qs, i)
       <==> Early(Serve(c, qs[0]), start, qs[0].now) && AllEarly(Serve(c, qs[0]), start, qs[1..], i - 1)
  {
    var rest := Play(Serve(c, qs[0]), qs[1..]);
    assert forall k | 0 <= k < |rest| :: Play(c, qs)[k + 1] == rest[k] && qs[1..][k] == qs[k + 1];
    if Early(Serve(c, qs[0]), start, qs[0].now) && AllEarly(Serve(c, qs[0]), start, qs[1..], i - 1) {
      forall k | 0 <= k <= i ensures Early(Play(c, qs)[k], start, qs[k].now) {
        if k > 0 {
          assert Early(rest[k - 1], start, qs[1..][k - 1].now);
        }
      }
    }
    if AllEarly(c, start, qs, i) {
      forall k | 0 <= k <= i - 1 ensures Early(rest[k], start, qs[1..][k].now) {
        assert Early(Play(c, qs)[k + 1], start, qs[k + 1].now);
      }
    }
  }

  lemma {:induction false} OriginUntilLate(c: Clock, s: Session, t: nat, qs: seq<Query>, i: nat)
    requires Good(c, s, t) && InTime(qs, t) && i < |qs| && AtOrigin(c, s.start)
    decreases i
    ensures Play(c, qs)[i].lastSample == 0.0 <==> AllEarly(c, s.start, qs, i)
  {
    InTimeRest(qs, t);
    var d := Serve(c, qs[0]);
    LeavesOrigin(c, s.start, qs[0]);
    ServeSafe(c, s, t, qs[0]);
    if i > 0 {
      AllEarlyRest(c, s.start, qs, i);
      if Early(d, s.start, qs[0].now) {
        OriginUntilLate(d, s, qs[0].now, qs[1..], i - 1);
      } else {
        PlayAt(d, s, qs[0].now, qs[1..], i - 1);
      }
    }
  }

  /**
    The next session: the first StartIO after a stop sets sample time back to
    zero and keeps the seed, so across the restart timestamps stay monotone if
    and only if every call of the session came less than one period after its
    start.
   */
  lemma {:induction false} RestartIsMonotoneIffSessionWasShort(before: Clock, start: nat, qs: seq<Query>, i: nat,
                                                               now: nat)
    requires 0.0 < before.nominal && start < TWO64 && InTime(qs, start) && i < |qs| && qs[i].now <= now
    ensures RateOk(Begin(before, start))
    ensures var e := Play(Begin(before, start), qs)[i];
            && Begin(e, now).seed == e.seed
            && (Before(e, Begin(e, now)) <==> AllEarly(Begin(before, start), start, qs, i))
  {
    var c := Begin(before, start);
    var s := Session(start, before.seed);
    BeginIsGood(before, start);
    OriginUntilLate(c, s, start, qs, i);
    PlayAt(c, s, start, qs, i);
  }

  /** One call a period after the start, and the restart goes back by 8192 samples under the same seed. */
  lemma RestartGoesBack(before: Clock)
    requires before.nominal == 1.0
    ensures var c := Begin(before, 0); var qs := [Query(Nothing, 8192)];
            && RateOk(c) && InTime(qs, 0)
            && Play(c, qs)[0].lastSample == 8192.0
            && !Before(Play(c, qs)[0], Begin(Play(c, qs)[0], 8192))
            && Begin(Play(c, qs)[0], 8192).seed == Play(c, qs)[0].seed
  {
    var c := Begin(before, 0);
    assert Periods(0, 8192.0, 8192) == 1;
    assert Play(c, [Query(Nothing, 8192)])[0] == Stamp(c, 8192);
  }

  // ----- the first half second -----

  /** No reading up to call i is 24000 frames or more past an earlier one. */
  ghost predicate CloseTogether(qs: seq<Query>, i: nat)
    requires i <= |qs|
  {
    forall j, k | 0 <= j < k < i && qs[j].reading.Fresh? && qs[k].reading.Fresh? ::
      qs[k].reading.pair.pos - qs[j].reading.pair.pos < 24000
  }

  /** The reference is a reading of an earlier call. */
  ghost predicate RefersBack(c: Clock, qs: seq<Query>, i: nat)
    requires i <= |qs|
  {
    c.refValid ==> exists j :: 0 <= j < i && qs[j].reading.Fresh? && qs[j].reading.pair == c.ref
  }

  lemma {:induction false} CloseReadingsChangeNothing(c: Clock, qs: seq<Query>, i: nat)
    requires RateOk(c) && !c.refValid && i <= |qs| && CloseTogether(qs, i)
    ensures var d := Found(c, qs, i);
            d.seed == c.seed && d.slaved == c.slaved && RefersBack(d, qs, i)
  {
    if i > 0 {
      var d := Found(c, qs, i - 1);
      CloseReadingsChangeNothing(c, qs, i - 1);
      PlayIsServed(c, qs, i - 1);
      OneCloseReading(d, qs, i - 1);
    }
  }

  lemma OneCloseReading(d: Clock, qs: seq<Query>, k: nat)
    requires RateOk(d) && k < |qs| && CloseTogether(qs, k + 1) && RefersBack(d, qs, k)
    ensures var e := Serve(d, qs[k]); e.seed == d.seed && e.slaved == d.slaved && RefersBack(e, qs, k + 1)
  {
    var r := qs[k].reading;
    if d.refValid {
      var j :| 0 <= j < k && qs[j].reading.Fresh? && qs[j].reading.pair == d.ref;
    }
    assert !FarEnough(d, r);
  }

  /**
    While no reading of a session is 24000 frames or more past an earlier one,
    the timeline keeps the seed it started with and the nominal rate, however
    late the readings are.
   */
  lemma {:induction false} NominalUntilFarEnough(before: Clock, start: nat, qs: seq<Query>, i: nat)
    requires 0.0 < before.nominal && i < |qs| && CloseTogether(qs, i + 1)
    ensures var e := Play(Begin(before, start), qs)[i]; e.seed == before.seed && e.slaved == before.nominal
  {
    var c := Begin(before, start);
    CloseReadingsChangeNothing(c, qs, i + 1);
    PlayIsServed(c, qs, i);
  }

  // ----- accuracy of the estimate -----

  /** An observation within `jitter` ticks of the line of slope r. */
  predicate NearLine(p: Pair, a: real, r: real, jitter: real) {
    Abs(p.time as real - (a + r * p.pos as real)) <= jitter
  }

  /** Twice the jitter over a window of w frames. */
  function Margin(jitter: real, w: int): real
    requires w > 0
  {
    2.0 * jitter / w as real
  }

  lemma SlopeArith(t0: real, p0: real, t1: real, p1: real, a: real, r: real, jitter: real)
    requires Abs(t0 - (a + r * p0)) <= jitter && Abs(t1 - (a + r * p1)) <= jitter && p0 < p1
    ensures Abs((t1 - t0) / (p1 - p0) - r) <= 2.0 * jitter / (p1 - p0)
  {
    var w := p1 - p0;
    var slope := (t1 - t0) / w;
    assert slope * w == t1 - t0;
    assert r * w == r * p1 - r * p0;
    QuotientBound(slope - r, w, 2.0 * jitter);
  }

  lemma QuotientBound(x: real, w: real, bound: real)
    requires w > 0.0 && -bound <= x * w <= bound
    ensures Abs(x) <= bound / w
  {
    var q := bound / w;
    assert q * w == bound;
    assert (q - x) * w >= 0.0;
    assert (q + x) * w >= 0.0;
  }

  /** Two jittered points give the slope up to twice the jitter over the window. */
  lemma SlopeError(p: Pair, q: Pair, a: real, r: real, jitter: real)
    requires NearLine(p, a, r, jitter) && NearLine(q, a, r, jitter) && p.pos < q.pos
    ensures Abs((q.time - p.time) as real / (q.pos - p.pos) as real - r) <= Margin(jitter, q.pos - p.pos)
  {
    SlopeArith(p.time as real, p.pos as real, q.time as real, q.pos as real, a, r, jitter);
    assert (q.pos - p.pos) as real == q.pos as real - p.pos as real;
    assert (q.time - p.time) as real == q.time as real - p.time as real;
  }

  lemma ClampCloser(x: real, low: real, high: real, r: real)
    requires low <= r <= high
    ensures Abs(Clamp(x, low, high) - r) <= Abs(x - r)
  {
  }

  /** The observation can be used: same ring, window long enough, clock not backwards. */
  predicate Usable(c: Clock, p: Pair) {
    c.refValid && MIN_OBSERVED <= Window(c, p) && c.ref.time <= p.time < TWO64
  }

  lemma RiseExact(c: Clock, p: Pair)
    requires Usable(c, p)
    ensures Estimate(c, p) == Clamp((p.time - c.ref.time) as real / Window(c, p) as real, Low(c), High(c))
  {
    assert U64(p.time - c.ref.time) == p.time - c.ref.time;
  }

  lemma EstimateError(c: Clock, p: Pair, a: real, r: real, jitter: real)
    requires Usable(c, p) && NearLine(c.ref, a, r, jitter) && NearLine(p, a, r, jitter)
    requires Low(c) <= r <= High(c)
    ensures Abs(Estimate(c, p) - r) <= Margin(jitter, Window(c, p))
  {
    SlopeError(c.ref, p, a, r, jitter);
    RiseExact(c, p);
    ClampCloser((p.time - c.ref.time) as real / Window(c, p) as real, Low(c), High(c), r);
  }

  /**
    After every usable observation the slaved rate is within twice the jitter
    over the window, plus the dead band, of the true rate.
   */
  lemma SlavedRateIsAccurate(c: Clock, p: Pair, a: real, r: real, jitter: real)
    requires RateOk(c) && Usable(c, p) && NearLine(c.ref, a, r, jitter) && NearLine(p, a, r, jitter)
    requires Low(c) <= r <= High(c)
    ensures var d := Observe(c, Fresh(p));
            Abs(d.slaved - r) <= Margin(jitter, Window(c, p)) + d.slaved * DEADBAND
  {
    EstimateError(c, p, a, r, jitter);
  }

  // ----- eventual quiet -----

  /** Every reading of the run is a usable one near the line, over a window of at least w frames. */
  ghost predicate Settled(qs: seq<Query>, ref: Pair, a: real, r: real, jitter: real, w: nat) {
    forall i | 0 <= i < |qs| && qs[i].reading.Fresh? ::
      && NearLine(qs[i].reading.pair, a, r, jitter)
      && w <= qs[i].reading.pair.pos - ref.pos && ref.time <= qs[i].reading.pair.time < TWO64
  }

  /** Long enough that two estimates can no longer differ by more than the dead band. */
  predicate LongEnough(c: Clock, jitter: real, w: nat) {
    MIN_OBSERVED <= w && 0.0 <= jitter && 2.0 * Margin(jitter, w) <= Low(c) * DEADBAND
  }

  lemma LongerWindowSharper(jitter: real, w: int, v: int)
    requires 0.0 <= jitter && 0 < w <= v
    ensures Margin(jitter, v) <= Margin(jitter, w)
  {
    var q := Margin(jitter, v);
    assert q * v as real == 2.0 * jitter;
    assert q * (v - w) as real >= 0.0;
    assert q * (v - w) as real == q * v as real - q * w as real;
    QuotientBound(q, w as real, 2.0 * jitter);
  }

  /** The slaved rate is itself an estimate over a window of w frames. */
  predicate Calm(c: Clock, r: real, jitter: real, w: nat)
    requires 0 < w
  {
    Abs(c.slaved - r) <= Margin(jitter, w)
  }

  lemma WithinDeadband(estimate: real, slaved: real, r: real, margin: real, low: real)
    requires Abs(estimate - r) <= margin && Abs(slaved - r) <= margin
    requires 2.0 * margin <= low * DEADBAND && low <= slaved
    ensures Abs(estimate - slaved) <= slaved * DEADBAND
  {
  }

  /** Once the slaved rate is such an estimate, no further reading moves it; a reading that moves it makes it one. */
  lemma QuietStep(c: Clock, p: Pair, a: real, r: real, jitter: real, w: nat)
    requires RateOk(c) && Usable(c, p) && w <= Window(c, p) && LongEnough(c, jitter, w)
    requires NearLine(c.ref, a, r, jitter) && NearLine(p, a, r, jitter) && Low(c) <= r <= High(c)
    ensures Calm(c, r, jitter, w) ==> Observe(c, Fresh(p)) == c
    ensures Observe(c, Fresh(p)) == c || Calm(Observe(c, Fresh(p)), r, jitter, w)
  {
    EstimateError(c, p, a, r, jitter);
    LongerWindowSharper(jitter, w, Window(c, p));
    if Calm(c, r, jitter, w) {
      WithinDeadband(Estimate(c, p), c.slaved, r, Margin(jitter, w), Low(c));
    }
  }

  lemma {:induction false} QuietPlay(c: Clock, qs: seq<Query>, a: real, r: real, jitter: real, w: nat, k: nat)
    requires RateOk(c) && c.refValid && LongEnough(c, jitter, w) && Low(c) <= r <= High(c)
    requires NearLine(c.ref, a, r, jitter) && Settled(qs, c.ref, a, r, jitter, w)
    requires k < |qs|
    decreases |qs|
    ensures Play(c, qs)[k].seed <= c.seed + if Calm(c, r, jitter, w) then 0 else 1
  {
    var d := Serve(c, qs[0]);
    if qs[0].reading.Fresh? {
      assert Usable(c, qs[0].reading.pair);
      QuietStep(c, qs[0].reading.pair, a, r, jitter, w);
    }
    if k > 0 {
      QuietPlay(d, qs[1..], a, r, jitter, w, k - 1);
    }
  }

  /**
    Eventual quiet: once the window satisfies 4 * jitter / window <= 2 ppm of
    the slowest rate, the rest of the session changes the seed at most once.
   */
  lemma {:induction false} SeedSettles(c: Clock, qs: seq<Query>, a: real, r: real, jitter: real, w: nat, k: nat)
    requires RateOk(c) && c.refValid && LongEnough(c, jitter, w) && Low(c) <= r <= High(c)
    requires NearLine(c.ref, a, r, jitter) && Settled(qs, c.ref, a, r, jitter, w)
    requires k < |qs|
    ensures Play(c, qs)[k].seed <= c.seed + 1
  {
    QuietPlay(c, qs, a, r, jitter, w, k);
  }

  // ----- what the daemon's publishes guarantee the estimator -----

  function ReadingOf(o: Outcome): Reading { if o.Got? then Fresh(o.pair) else Nothing }

  /** The estimator fed with results m .. k of the driver's seqlock reads. */
  function Digest(c: Clock, results: seq<Outcome>, m: nat, k: nat): Clock
    requires m <= k <= |results|
    decreases k
  {
    if k == m then c else Observe(Digest(c, results, m, k - 1), ReadingOf(results[k - 1]))
  }

  /** A valid reference is always one of the pairs read since the session began. */
  lemma {:induction false} ReferenceWasRead(c: Clock, results: seq<Outcome>, m: nat, k: nat) returns (i: nat)
    requires m <= k <= |results| && !c.refValid && Digest(c, results, m, k).refValid
    decreases k
    ensures m <= i < k && results[i].Got? && results[i].pair == Digest(c, results, m, k).ref
  {
    var before := Digest(c, results, m, k - 1);
    if before.refValid && Digest(c, results, m, k).ref == before.ref {
      i := ReferenceWasRead(c, results, m, k - 1);
    } else {
      i := k - 1;
    }
  }

  /**
    End to end, for every interleaving of daemon and driver on one ring: once
    the session has a reference, no observation is behind it in either word,
    so the unsigned time difference never wraps, the restart branch is never
    taken again, and no observed position is ahead of the ring.
   */
  lemma RestartBranchNeverTaken(actions: seq<Action>, c: Clock, m: nat, k: nat)
    requires m <= k < |Exec(actions).results| && Exec(actions).results[k].Got?
    requires !c.refValid && Digest(c, Exec(actions).results, m, k).refValid
    ensures var results := Exec(actions).results; var p := results[k].pair;
            var ref := Digest(c, results, m, k).ref;
            && ref.time <= p.time && ref.pos <= p.pos <= Exec(actions).d.writePos
            && Digest(c, results, m, k + 1).ref == ref
  {
    var i := ReferenceWasRead(c, Exec(actions).results, m, k);
    ObservationsAreOrdered(actions, i, k);
  }

  // ----- slaving to the daemon, end to end -----

  /** The part of the clock that the estimator works on. */
  predicate SameEstimator(c: Clock, d: Clock) {
    c.nominal == d.nominal && c.slaved == d.slaved && c.seed == d.seed && c.refValid == d.refValid && c.ref == d.ref
  }

  lemma ObserveSame(c: Clock, d: Clock, reading: Reading)
    requires SameEstimator(c, d)
    ensures SameEstimator(Observe(c, reading), Observe(d, reading))
  {
  }

  /** Call i of the session reads result m + i of the seqlock. */
  ghost predicate ReadsFrom(qs: seq<Query>, results: seq<Outcome>, m: nat) {
    m + |qs| <= |results| && forall i | 0 <= i < |qs| :: qs[i].reading == ReadingOf(results[m + i])
  }

  /** Timestamps do not disturb the estimator: a session's calls digest the readings one by one. */
  lemma {:induction false} FoundIsDigest(c: Clock, qs: seq<Query>, results: seq<Outcome>, m: nat, i: nat)
    requires RateOk(c) && ReadsFrom(qs, results, m) && i <= |qs|
    ensures SameEstimator(Found(c, qs, i), Digest(c, results, m, m + i))
  {
    if i > 0 {
      FoundIsDigest(c, qs, results, m, i - 1);
      PlayIsServed(c, qs, i - 1);
      ObserveSame(Found(c, qs, i - 1), Digest(c, results, m, m + i - 1), qs[i - 1].reading);
    }
  }

  /** Every pair the daemon ever published lies near the line of slope r, and the host clock has not wrapped. */
  ghost predicate Jittered(s: State, a: real, r: real, jitter: real) {
    && s.d.now < TWO64
    && forall i | 0 <= i < |s.d.pubs| :: NearLine(s.d.pubs[i], a, r, jitter)
  }

  /** What the run of daemon and driver guarantees about reading k and the reference it meets. */
  lemma ReadingIsUsable(actions: seq<Action>, c: Clock, m: nat, k: nat, a: real, r: real, jitter: real)
    requires Jittered(Exec(actions), a, r, jitter) && m <= k < |Exec(actions).results| && Exec(actions).results[k].Got?
    requires !c.refValid && Digest(c, Exec(actions).results, m, k).refValid
    ensures var ref, p := Digest(c, Exec(actions).results, m, k).ref, Exec(actions).results[k].pair;
            && NearLine(ref, a, r, jitter) && NearLine(p, a, r, jitter)
            && ref.time <= p.time < TWO64 && ref.pos <= p.pos
  {
    var i := ReferenceWasRead(c, Exec(actions).results, m, k);
    ReadsAreLinearizable(actions, i, k);
    ObservationsAreOrdered(actions, i, k);
  }

  /**
    For every interleaving of daemon and driver, whenever the daemon's publishes
    lie within `jitter` ticks of a line of slope r inside the clamp: each call of
    a session that reads an observation over a window of w >= 24000 frames
    leaves the slaved rate within 2 * jitter / w plus 2 ppm of r.
   */
  lemma {:induction false} SessionFollowsDaemon(actions: seq<Action>, before: Clock, start: nat, qs: seq<Query>, m: nat,
                                                i: nat, a: real, r: real, jitter: real)
    requires Jittered(Exec(actions), a, r, jitter) && 0.0 < before.nominal
    requires ReadsFrom(qs, Exec(actions).results, m) && i < |qs| && qs[i].reading.Fresh?
    requires Low(before) <= r <= High(before)
    requires var c := Begin(before, start);
             Found(c, qs, i).refValid && Window(Found(c, qs, i), qs[i].reading.pair) >= MIN_OBSERVED
    ensures var c := Begin(before, start); var e := Play(c, qs)[i];
            Abs(e.slaved - r) <= Margin(jitter, Window(Found(c, qs, i), qs[i].reading.pair)) + e.slaved * DEADBAND
  {
    var c := Begin(before, start);
    FoundIsUsable(actions, c, qs, m, i, a, r, jitter);
    PlayIsServed(c, qs, i);
    FoundRate(c, qs, i);
    SlavedRateIsAccurate(Found(c, qs, i), qs[i].reading.pair, a, r, jitter);
  }

  lemma {:induction false} FoundIsUsable(actions: seq<Action>, c: Clock, qs: seq<Query>, m: nat, i: nat,
                                         a: real, r: real, jitter: real)
    requires Jittered(Exec(actions), a, r, jitter) && RateOk(c) && !c.refValid
    requires ReadsFrom(qs, Exec(actions).results, m) && i < |qs| && qs[i].reading.Fresh?
    requires Found(c, qs, i).refValid && Window(Found(c, qs, i), qs[i].reading.pair) >= MIN_OBSERVED
    ensures var d, p := Found(c, qs, i), qs[i].reading.pair;
            Usable(d, p) && NearLine(d.ref, a, r, jitter) && NearLine(p, a, r, jitter)
  {
    FoundIsDigest(c, qs, Exec(actions).results, m, i);
    assert qs[i].reading == ReadingOf(Exec(actions).results[m + i]);
    ReadingIsUsable(actions, c, m, m + i, a, r, jitter);
  }

  /** Sessions never change the nominal rate. */
  lemma {:induction false} FoundRate(c: Clock, qs: seq<Query>, i: nat)
    requires RateOk(c) && i <= |qs|
    decreases i
    ensures Found(c, qs, i).nominal == c.nominal
  {
    if i > 0 {
      FoundRate(Serve(c, qs[0]), qs[1..], i - 1);
    }
  }

  /** The estimator is as it was, or has settled on an estimate one seed later. */
  predicate SettledFrom(c: Clock, d: Clock, r: real, jitter: real, w: nat)
    requires 0 < w
  {
    && RateOk(d) && d.nominal == c.nominal && d.refValid && d.ref == c.ref
    && ((d.slaved == c.slaved && d.seed == c.seed) || (Calm(d, r, jitter, w) && d.seed == c.seed + 1))
  }

  lemma SettledStep(c: Clock, d: Clock, p: Pair, a: real, r: real, jitter: real, w: nat)
    requires 0 < w && SettledFrom(c, d, r, jitter, w) && LongEnough(c, jitter, w) && Low(c) <= r <= High(c)
    requires w <= Window(c, p) && Usable(d, p) && NearLine(d.ref, a, r, jitter) && NearLine(p, a, r, jitter)
    ensures SettledFrom(c, Observe(d, Fresh(p)), r, jitter, w)
  {
    QuietStep(d, p, a, r, jitter, w);
  }

  lemma {:induction false} DigestSettles(actions: seq<Action>, c: Clock, m: nat, i: nat, k: nat,
                                         a: real, r: real, jitter: real, w: nat)
    requires Jittered(Exec(actions), a, r, jitter) && RateOk(c) && !c.refValid
    requires m <= i <= k <= |Exec(actions).results| && i < |Exec(actions).results| && Exec(actions).results[i].Got?
    requires var d := Digest(c, Exec(actions).results, m, i);
             && d.refValid && RateOk(d) && LongEnough(d, jitter, w) && Low(d) <= r <= High(d)
             && w <= Window(d, Exec(actions).results[i].pair)
    decreases k
    ensures 0 < w
    ensures SettledFrom(Digest(c, Exec(actions).results, m, i), Digest(c, Exec(actions).results, m, k), r, jitter, w)
  {
    var results := Exec(actions).results;
    var d := Digest(c, results, m, i);
    if k > i {
      DigestSettles(actions, c, m, i, k - 1, a, r, jitter, w);
      if results[k - 1].Got? {
        ReadingIsUsable(actions, c, m, k - 1, a, r, jitter);
        ObservationsAreOrdered(actions, i, k - 1);
        SettledStep(d, Digest(c, results, m, k - 1), results[k - 1].pair, a, r, jitter, w);
      }
    }
  }

  /**
    And once one observation of the session spans a window with
    4 * jitter / window <= 2 ppm of the slowest rate, the rest of the session,
    that call included, changes the seed at most once.
   */
  lemma {:induction false} SessionSettles(actions: seq<Action>, before: Clock, start: nat, qs: seq<Query>, m: nat,
                                          i: nat, k: nat, a: real, r: real, jitter: real, w: nat)
    requires Jittered(Exec(actions), a, r, jitter) && 0.0 < before.nominal
    requires ReadsFrom(qs, Exec(actions).results, m) && i <= k < |qs| && qs[i].reading.Fresh?
    requires Low(before) <= r <= High(before) && LongEnough(before, jitter, w)
    requires var c := Begin(before, start);
             Found(c, qs, i).refValid && Window(Found(c, qs, i), qs[i].reading.pair) >= w
    ensures var c := Begin(before, start); Play(c, qs)[k].seed <= Found(c, qs, i).seed + 1
  {
    var c := Begin(before, start);
    var results := Exec(actions).results;
    FoundRate(c, qs, i);
    FoundIsDigest(c, qs, results, m, i);
    FoundIsDigest(c, qs, results, m, k + 1);
    PlayIsServed(c, qs, k);
    assert qs[i].reading == ReadingOf(results[m + i]);
    DigestSettles(actions, c, m, m + i, m + k + 1, a, r, jitter, w);
  }
}

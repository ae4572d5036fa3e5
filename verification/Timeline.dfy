/**
  src/coreaudio/ReacJackDriver.c: the device clock. Float64 is `real`, the
  casts to UInt64 are floors, and the UInt64 subtractions wrap.
 */
module Timeline {
  import opened ClockProtocol

  const PERIOD: nat := 8192
  const MIN_OBSERVED: nat := 24000
  const MAX_SKEW: real := 0.01
  const DEADBAND: real := 0.000002
  const TWO64: nat := 0x1_0000_0000_0000_0000

  /** UInt64 arithmetic. */
  function U64(x: int): nat { x % TWO64 }

  /** The gDevice_ variables of the timeline and of clock slaving. */
  datatype Clock = Clock(
    nominal: real, anchorHost: nat, anchorSample: real, lastHost: nat, lastSample: real,
    slaved: real, seed: nat, refValid: bool, ref: Pair)

  /** What shared_audio_get_clock gave: a pair, or a failure. */
  datatype Reading = Fresh(pair: Pair) | Nothing

  function Low(c: Clock): real { c.nominal * (1.0 - MAX_SKEW) }
  function High(c: Clock): real { c.nominal * (1.0 + MAX_SKEW) }

  /** The slaved rate is within the clamp around a positive nominal rate. */
  predicate RateOk(c: Clock) { 0.0 < c.nominal && Low(c) <= c.slaved <= High(c) }

  function Abs(x: real): real { if x < 0.0 then -x else x }

  function Clamp(x: real, low: real, high: real): real {
    if x < low then low else if x > high then high else x
  }

  /** Timeline and slaving state at the first StartIO of a session. */
  function Begin(c: Clock, now: nat): Clock {
    c.(anchorHost := now, anchorSample := 0.0, lastHost := now, lastSample := 0.0,
       slaved := c.nominal, refValid := false)
  }

  function Window(c: Clock, pair: Pair): int { pair.pos - c.ref.pos }

  /** Ticks per frame from one pair to another. */
  function Slope(from: Pair, to: Pair): real
    requires from.pos < to.pos
  {
    U64(to.time - from.time) as real / (to.pos - from.pos) as real
  }

  function Estimate(c: Clock, pair: Pair): real
    requires Window(c, pair) > 0
  {
    Clamp(Slope(c.ref, pair), Low(c), High(c))
  }

  /** A slope, kept within one percent of the nominal rate. */
  predicate WithinOnePercent(rate: real, slope: real, nominal: real) {
    && (slope < 0.99 * nominal ==> rate == 0.99 * nominal)
    && (slope > 1.01 * nominal && !(slope < 0.99 * nominal) ==> rate == 1.01 * nominal)
    && (0.99 * nominal <= slope <= 1.01 * nominal ==> rate == slope)
  }

  /** The reading is 24000 frames or more past a valid reference. */
  predicate FarEnough(c: Clock, reading: Reading) {
    reading.Fresh? && c.refValid && reading.pair.pos - c.ref.pos >= 24000
  }

  /**
    update_clock_estimate. The last stamp stays. The seed moves with the rate,
    exactly when a reading far enough from the reference gives a clamped slope
    more than 2 ppm away; the rate is then that slope, and the timeline is
    rebased at the last stamp. A first reading, or one that goes back, becomes
    the reference and does nothing else.
   */
  function Observe(c: Clock, reading: Reading): (d: Clock)
    ensures RateOk(c) ==> RateOk(d)
    ensures d.nominal == c.nominal && d.lastHost == c.lastHost && d.lastSample == c.lastSample
    ensures d.seed == c.seed ==> d == c.(refValid := d.refValid, ref := d.ref)
    ensures d.seed != c.seed ==>
              && d.seed == c.seed + 1 && FarEnough(c, reading)
              && WithinOnePercent(d.slaved, Slope(c.ref, reading.pair), c.nominal)
              && Abs(d.slaved - c.slaved) > c.slaved * 0.000002
              && d.anchorHost == c.lastHost && d.anchorSample == c.lastSample
    ensures d.seed == c.seed && FarEnough(c, reading) ==>
              forall rate | WithinOnePercent(rate, Slope(c.ref, reading.pair), c.nominal) ::
                Abs(rate - c.slaved) <= c.slaved * 0.000002
    ensures reading.Fresh? && (!c.refValid || reading.pair.pos < c.ref.pos) ==>
              d == c.(refValid := true, ref := reading.pair)
    ensures reading.Fresh? ==> d.refValid && d.ref.pos <= reading.pair.pos
    ensures c.refValid && (reading.Nothing? || c.ref.pos <= reading.pair.pos) ==> d.refValid && d.ref == c.ref
    ensures RateOk(c) && reading.Fresh? && c.refValid && Window(c, reading.pair) >= MIN_OBSERVED ==>
              Abs(Estimate(c, reading.pair) - d.slaved) <= d.slaved * DEADBAND
  {
    if reading.Nothing? then c
    else if !c.refValid || reading.pair.pos < c.ref.pos then c.(refValid := true, ref := reading.pair)
    else if Window(c, reading.pair) < MIN_OBSERVED then c
    else
      var estimate := Estimate(c, reading.pair);
      if Abs(estimate - c.slaved) <= c.slaved * DEADBAND then c
      else c.(anchorHost := c.lastHost, anchorSample := c.lastSample, slaved := estimate, seed := c.seed + 1)
  }

  function TicksPerPeriod(rate: real): real { rate * PERIOD as real }

  /** Whole periods of d ticks elapsed since the anchor. */
  function Periods(anchor: nat, d: real, now: nat): int
    requires d > 0.0
  {
    (U64(now - anchor) as real / d).Floor
  }

  /** Ticks in n periods of d ticks. */
  function Ticks(n: int, d: real): real { n as real * d }

  /** Host time and sample time n periods after the anchor. */
  function HostAfter(anchor: nat, d: real, n: int): int { anchor + Ticks(n, d).Floor }
  function SampleAfter(anchor: real, n: int): real { anchor + (n * PERIOD) as real }

  /** The timestamp part of GetZeroTimeStamp, with its guard against going backwards. */
  function Stamp(c: Clock, now: nat): (d: Clock)
    requires c.slaved > 0.0
    ensures RateOk(c) ==> RateOk(d)
  {
    var d := TicksPerPeriod(c.slaved);
    var n := Periods(c.anchorHost, d, now);
    var host := HostAfter(c.anchorHost, d, n);
    if host < c.lastHost then c else c.(lastHost := host, lastSample := SampleAfter(c.anchorSample, n))
  }

  // ----- arithmetic -----

  lemma MulMono(a: real, b: real, d: real)
    requires a <= b && d >= 0.0
    ensures a * d <= b * d
  {
    assert (b - a) * d >= 0.0;
  }

  lemma TicksMono(q: int, n: int, d: real)
    requires q <= n && d >= 0.0
    ensures Ticks(q, d) <= Ticks(n, d)
  {
    MulMono(q as real, n as real, d);
  }

  lemma TicksSmall(d: real)
    ensures Ticks(0, d) == 0.0 && Ticks(1, d) == d
  {
  }

  lemma Sandwich(x: real, d: real, y: real, m: real)
    requires d > 0.0 && x == y * d && m <= y < m + 1.0
    ensures m * d <= x < m * d + d
  {
    var gap := m + 1.0 - y;
    assert gap * d > 0.0;
    assert gap * d == m * d + d - x;
    assert (y - m) * d >= 0.0;
  }

  /** The truncated quotient is the number of whole periods that fit. */
  lemma Quotient(x: real, d: real, n: int)
    requires x >= 0.0 && d > 0.0 && n == (x / d).Floor
    ensures n >= 0 && Ticks(n, d) <= x < Ticks(n, d) + d
  {
    assert x / d >= 0.0;
    assert x == x / d * d;
    Sandwich(x, d, x / d, n as real);
  }

  lemma QuotientLargest(x: real, d: real, n: int, q: int)
    requires x >= 0.0 && d > 0.0 && n == (x / d).Floor && Ticks(q, d) <= x
    ensures q <= n
  {
    Quotient(x, d, n);
    if q >= n + 1 {
      MulMono(n as real + 1.0, q as real, d);
    }
  }

  // ----- the session invariant -----

  /** Where and with which seed the session began. */
  datatype Session = Session(start: nat, seed: nat)

  /** Whole periods from one sample time to a later one. */
  function Lag(from: real, to: real): int { ((to - from) / PERIOD as real).Floor }

  predicate IsPeriodMultiple(x: real) { x >= 0.0 && x == ((x / PERIOD as real).Floor * PERIOD) as real }

  /** A timestamp lies n whole periods along the timeline, at a point that host time t has passed. */
  ghost predicate OnTimeline(anchorHost: nat, anchorSample: real, d: real, host: nat, sample: real, n: int, t: nat) {
    && 0 <= n && anchorHost <= t
    && sample == SampleAfter(anchorSample, n)
    && host == HostAfter(anchorHost, d, n)
    && Ticks(n, d) <= (t - anchorHost) as real
  }

  /** Host time gone by against sample time, in ticks: within the clamp, up to `lost` ticks. */
  ghost predicate Envelope(low: real, high: real, gone: int, sample: real, lost: int) {
    low * sample - lost as real <= gone as real <= high * sample
  }

  /** The same for an emitted timestamp, whose flooring loses a part of one more tick. */
  ghost predicate WithinEnvelope(low: real, high: real, gone: int, sample: real, lost: int) {
    low * sample - lost as real < gone as real <= high * sample
  }

  ghost predicate Good(c: Clock, s: Session, t: nat) {
    && RateOk(c)
    && s.start <= c.anchorHost <= c.lastHost <= t < TWO64
    && s.seed <= c.seed
    && IsPeriodMultiple(c.anchorSample)
    && OnTimeline(c.anchorHost, c.anchorSample, TicksPerPeriod(c.slaved), c.lastHost, c.lastSample,
                  Lag(c.anchorSample, c.lastSample), t)
    && Envelope(Low(c), High(c), c.anchorHost - s.start, c.anchorSample, c.seed - s.seed)
  }

  lemma BeginIsGood(c: Clock, now: nat)
    requires 0.0 < c.nominal && now < TWO64
    ensures Good(Begin(c, now), Session(now, c.seed), now)
  {
  }

  // ----- one timestamp, as arithmetic -----

  lemma ExactPeriods(n: int)
    ensures ((n * PERIOD) as real / PERIOD as real).Floor == n
  {
    assert (n * PERIOD) as real == n as real * PERIOD as real;
    assert (n * PERIOD) as real / PERIOD as real == n as real;
  }

  lemma LagOf(from: real, n: int)
    ensures Lag(from, SampleAfter(from, n)) == n
  {
    ExactPeriods(n);
  }

  /**
    With q whole periods of d ticks already passed at host time t, the n
    periods counted at a later `now` reach at least as far and not past it.
   */
  lemma Point(anchor: nat, q: int, d: real, t: nat, now: nat, n: int)
    requires d > 0.0 && anchor <= t <= now && Ticks(q, d) <= (t - anchor) as real
    requires n == ((now - anchor) as real / d).Floor
    ensures q <= n && n >= 0
    ensures Ticks(n, d) <= (now - anchor) as real < Ticks(n, d) + d
    ensures Ticks(q, d).Floor <= Ticks(n, d).Floor <= now - anchor
    ensures (now - anchor - Ticks(n, d).Floor) as real < d + 1.0
  {
    PeriodsPassed((now - anchor) as real, (t - anchor) as real, d, n, q);
    Floors(Ticks(q, d), Ticks(n, d), now - anchor, d);
  }

  lemma PeriodsPassed(x: real, y: real, d: real, n: int, q: int)
    requires d > 0.0 && 0.0 <= y <= x && Ticks(q, d) <= y && n == (x / d).Floor
    ensures q <= n && n >= 0 && Ticks(q, d) <= Ticks(n, d) <= x < Ticks(n, d) + d
  {
    Quotient(x, d, n);
    QuotientLargest(x, d, n, q);
    TicksMono(q, n, d);
  }

  lemma Floors(lo: real, hi: real, x: int, d: real)
    requires lo <= hi <= x as real < hi + d
    ensures lo.Floor <= hi.Floor <= x && (x - hi.Floor) as real < d + 1.0
  {
  }

  /** Emitted sample time is a + n periods; `gap` is the host time gone by at the anchor. */
  lemma EnvelopeArith(low: real, rate: real, high: real, a: real, n: real, gap: real, lost: real)
    requires low <= rate <= high && n >= 0.0
    requires low * a - lost <= gap <= high * a
    ensures low * (a + n * PERIOD as real) - lost
         <= gap + n * (rate * PERIOD as real)
         <= high * (a + n * PERIOD as real)
  {
    var p := n * PERIOD as real;
    MulMono(low, rate, p);
    MulMono(rate, high, p);
    assert n * (rate * PERIOD as real) == rate * p;
    assert low * (a + p) == low * a + low * p;
    assert high * (a + p) == high * a + high * p;
  }

  /** Flooring loses less than one more tick. */
  lemma EnvelopeAfter(low: real, rate: real, high: real, gone: int, sample: real, lost: int, n: int)
    requires low <= rate <= high && 0 <= n && Envelope(low, high, gone, sample, lost)
    ensures WithinEnvelope(low, high, gone + HostAfter(0, TicksPerPeriod(rate), n), SampleAfter(sample, n), lost + 1)
  {
    EnvelopeArith(low, rate, high, sample, n as real, gone as real, lost as real);
    assert SampleAfter(sample, n) == sample + n as real * PERIOD as real;
  }

  lemma HostAfterShift(anchor: nat, d: real, n: int)
    ensures HostAfter(anchor, d, n) == anchor + HostAfter(0, d, n)
  {
  }

  // ----- one timestamp -----

  lemma PeriodsExact(anchor: nat, d: real, now: nat)
    requires d > 0.0 && anchor <= now < TWO64
    ensures U64(now - anchor) == now - anchor
    ensures Periods(anchor, d, now) == ((now - anchor) as real / d).Floor
  {
  }

  /** The next point of a timeline, n periods after the anchor at `now`, against an earlier one at q periods. */
  lemma NextPoint(anchorHost: nat, anchorSample: real, d: real, host: nat, sample: real, q: int, t: nat, now: nat,
                  n: int)
    requires d > 0.0 && OnTimeline(anchorHost, anchorSample, d, host, sample, q, t) && t <= now
    requires n == ((now - anchorHost) as real / d).Floor
    ensures q <= n && host <= HostAfter(anchorHost, d, n) <= now && sample <= SampleAfter(anchorSample, n)
    ensures (now - HostAfter(anchorHost, d, n)) as real < d + 1.0
    ensures OnTimeline(anchorHost, anchorSample, d, HostAfter(anchorHost, d, n), SampleAfter(anchorSample, n), n, now)
  {
    Point(anchorHost, q, d, t, now, n);
    SampleMono(anchorSample, q, n);
  }

  lemma SampleMono(anchor: real, q: int, n: int)
    requires q <= n
    ensures SampleAfter(anchor, q) <= SampleAfter(anchor, n)
  {
  }

  /**
    elapsed_ticks never wraps and, in exact arithmetic, the guard against
    going backwards never fires: the timestamp is the point of the timeline
    that `now` has just passed, no older than one period and one tick.
   */
  lemma NeverBackwards(c: Clock, s: Session, t: nat, now: nat)
    requires Good(c, s, t) && t <= now < TWO64
    ensures c.slaved > 0.0 && U64(now - c.anchorHost) == now - c.anchorHost
    ensures var d := TicksPerPeriod(c.slaved); var n := Periods(c.anchorHost, d, now);
            && c.lastHost <= HostAfter(c.anchorHost, d, n) && 0 <= n
            && Stamp(c, now)
            == c.(lastHost := HostAfter(c.anchorHost, d, n), lastSample := SampleAfter(c.anchorSample, n))
    ensures c.lastHost <= Stamp(c, now).lastHost <= now && c.lastSample <= Stamp(c, now).lastSample
    ensures (now - Stamp(c, now).lastHost) as real < TicksPerPeriod(c.slaved) + 1.0
  {
    var d := TicksPerPeriod(c.slaved);
    PeriodsExact(c.anchorHost, d, now);
    NextPoint(c.anchorHost, c.anchorSample, d, c.lastHost, c.lastSample,
              Lag(c.anchorSample, c.lastSample), t, now, Periods(c.anchorHost, d, now));
  }

  lemma MultipleStep(x: real, n: int)
    requires IsPeriodMultiple(x) && n >= 0
    ensures IsPeriodMultiple(SampleAfter(x, n))
  {
    var k := (x / PERIOD as real).Floor;
    assert SampleAfter(x, n) == ((k + n) * PERIOD) as real;
    ExactPeriods(k + n);
  }

  /** After k rebases an emitted timestamp has lost less than k + 1 ticks against the slowest admissible rate. */
  lemma StampEnvelope(c: Clock, s: Session, t: nat, now: nat)
    requires Good(c, s, t) && t <= now < TWO64
    ensures c.slaved > 0.0 && IsPeriodMultiple(Stamp(c, now).lastSample)
    ensures WithinEnvelope(Low(c), High(c), Stamp(c, now).lastHost - s.start, Stamp(c, now).lastSample,
                           c.seed - s.seed + 1)
  {
    NeverBackwards(c, s, t, now);
    var d := TicksPerPeriod(c.slaved);
    var n := Periods(c.anchorHost, d, now);
    EnvelopeAfter(Low(c), c.slaved, High(c), c.anchorHost - s.start, c.anchorSample, c.seed - s.seed, n);
    HostAfterShift(c.anchorHost, TicksPerPeriod(c.slaved), n);
    MultipleStep(c.anchorSample, n);
  }

  lemma StampKeeps(c: Clock, s: Session, t: nat, now: nat)
    requires Good(c, s, t) && t <= now < TWO64
    ensures c.slaved > 0.0 && Good(Stamp(c, now), s, now)
  {
    NeverBackwards(c, s, t, now);
    var d := TicksPerPeriod(c.slaved);
    var n := Periods(c.anchorHost, d, now);
    PeriodsExact(c.anchorHost, d, now);
    NextPoint(c.anchorHost, c.anchorSample, d, c.lastHost, c.lastSample,
              Lag(c.anchorSample, c.lastSample), t, now, n);
    LagOf(c.anchorSample, n);
  }

  // ----- one observation -----

  /** The anchor is the point zero periods along its own timeline. */
  lemma RebasePoint(host: nat, sample: real, d: real, t: nat)
    requires host <= t
    ensures OnTimeline(host, sample, d, host, sample, Lag(sample, sample), t)
  {
    LagOf(sample, 0);
  }

  lemma RebaseKeeps(c: Clock, s: Session, t: nat, rate: real)
    requires Good(c, s, t) && Low(c) <= rate <= High(c)
    ensures Good(c.(anchorHost := c.lastHost, anchorSample := c.lastSample, slaved := rate, seed := c.seed + 1), s, t)
  {
    RebaseLoses(Low(c), c.slaved, High(c), s.start, c.anchorHost, c.anchorSample, c.lastHost, c.lastSample,
                Lag(c.anchorSample, c.lastSample), c.seed - s.seed, t);
    RebasePoint(c.lastHost, c.lastSample, TicksPerPeriod(rate), t);
  }

  /** Moving the anchor to a later point of its own timeline loses under one tick. */
  lemma RebaseLoses(low: real, rate: real, high: real, start: nat, anchorHost: nat, anchorSample: real,
                    host: nat, sample: real, n: int, lost: int, t: nat)
    requires low <= rate <= high && IsPeriodMultiple(anchorSample)
    requires OnTimeline(anchorHost, anchorSample, TicksPerPeriod(rate), host, sample, n, t)
    requires Envelope(low, high, anchorHost - start, anchorSample, lost)
    ensures Envelope(low, high, host - start, sample, lost + 1) && IsPeriodMultiple(sample)
  {
    EnvelopeAfter(low, rate, high, anchorHost - start, anchorSample, lost, n);
    HostAfterShift(anchorHost, TicksPerPeriod(rate), n);
    MultipleStep(anchorSample, n);
  }

  /** Any reading whatever keeps the timeline continuous. */
  lemma ObserveKeeps(c: Clock, s: Session, t: nat, reading: Reading)
    requires Good(c, s, t)
    ensures Good(Observe(c, reading), s, t)
    ensures Observe(c, reading).lastHost == c.lastHost && Observe(c, reading).lastSample == c.lastSample
  {
    if reading.Fresh? && c.refValid && Window(c, reading.pair) >= MIN_OBSERVED {
      RebaseKeeps(c, s, t, Estimate(c, reading.pair));
    }
  }
}

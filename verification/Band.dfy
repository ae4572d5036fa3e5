/**
  The drift regulator over whole runs: one cycle is an all-or-nothing write
  followed by a regulated read. The bounds hold for every pattern of writes
  and requests and for every run length.
 */
module Band {
  import opened Audio
  import opened Regulation

  datatype Setup = Setup(target: nat, tolerance: nat, capacity: nat)
  datatype Cycle = Cycle(written: nat, requested: nat)

  predicate Overruns(fill: nat, cycle: Cycle, s: Setup) { fill + cycle.written > s.capacity }

  function AfterWrite(fill: nat, cycle: Cycle, s: Setup): nat {
    if Overruns(fill, cycle, s) then fill else fill + cycle.written
  }

  /** The read of this cycle counts an underrun. */
  predicate Underruns(fill: nat, cycle: Cycle, s: Setup) {
    var f := AfterWrite(fill, cycle, s);
    var c := Correct(f, cycle.requested, s.target, s.tolerance);
    Consumed(f, cycle.requested, c) < cycle.requested - c.insert
  }

  function Step(fill: nat, cycle: Cycle, s: Setup): nat {
    AfterRead(AfterWrite(fill, cycle, s), cycle.requested, s.target, s.tolerance)
  }

  function Run(fill: nat, cycles: seq<Cycle>, s: Setup): nat
    decreases |cycles|
  {
    if cycles == [] then fill else Run(Step(fill, cycles[0], s), cycles[1..], s)
  }

  function Ceiling(s: Setup): nat { s.target + s.tolerance }

  /** Lowest post-read fill the regulator defends against requests of up to `most` frames. */
  function Floor(s: Setup, most: nat): nat
    requires s.tolerance + most <= s.target
  {
    s.target - s.tolerance - most
  }

  function Max(a: nat, b: nat): nat { if a < b then b else a }

  // ----- one cycle -----

  lemma CeilingStep(fill: nat, cycle: Cycle, s: Setup)
    requires cycle.written <= cycle.requested + MAX_CORRECTION
    ensures Step(fill, cycle, s) <= Max(fill, Ceiling(s))
  {
  }

  lemma FloorStep(fill: nat, cycle: Cycle, s: Setup, most: nat)
    requires s.tolerance + most <= s.target && cycle.requested <= most
    requires cycle.requested <= cycle.written + MAX_CORRECTION
    requires Floor(s, most) <= fill && cycle.written + (s.target - s.tolerance) <= s.capacity
    ensures Floor(s, most) <= Step(fill, cycle, s)
    ensures !Underruns(fill, cycle, s)
  {
  }

  // ----- whole runs -----

  lemma {:induction false} RunAppend(fill: nat, cycles: seq<Cycle>, k: nat, s: Setup)
    requires k < |cycles|
    decreases k
    ensures Run(fill, cycles[..k + 1], s) == Step(Run(fill, cycles[..k], s), cycles[k], s)
  {
    if k > 0 {
      RunAppend(Step(fill, cycles[0], s), cycles[1..], k - 1, s);
      assert cycles[..k + 1][1..] == cycles[1..][..k];
      assert cycles[..k][1..] == cycles[1..][..k - 1];
    } else {
      assert cycles[..1][1..] == [];
    }
  }

  /**
    A writer at most eight frames per cycle too fast never pushes the fill
    above its starting point or the top of the band, whichever is higher, and
    never overruns a ring that holds that much plus one write.
   */
  lemma {:induction false} CeilingInvariant(fill: nat, cycles: seq<Cycle>, s: Setup, k: nat)
    requires forall i | 0 <= i < |cycles| :: cycles[i].written <= cycles[i].requested + MAX_CORRECTION
    requires k <= |cycles|
    ensures Run(fill, cycles[..k], s) <= Max(fill, Ceiling(s))
    ensures k < |cycles| && Max(fill, Ceiling(s)) + cycles[k].written <= s.capacity ==>
              !Overruns(Run(fill, cycles[..k], s), cycles[k], s)
  {
    if k > 0 {
      CeilingInvariant(fill, cycles, s, k - 1);
      RunAppend(fill, cycles, k - 1, s);
      CeilingStep(Run(fill, cycles[..k - 1], s), cycles[k - 1], s);
    }
  }

  /**
    A writer at most eight frames per cycle too slow, and as fast or bursty as
    it likes, never lets the fill drop below the floor, and no read of the run
    counts an underrun: a write is only refused when the fill is already above
    the lower edge of the tolerance.
   */
  lemma {:induction false} FloorInvariant(fill: nat, cycles: seq<Cycle>, s: Setup, most: nat, k: nat)
    requires s.tolerance + most <= s.target && Floor(s, most) <= fill
    requires forall i | 0 <= i < |cycles| ::
               && cycles[i].requested <= most && cycles[i].requested <= cycles[i].written + MAX_CORRECTION
               && cycles[i].written + (s.target - s.tolerance) <= s.capacity
    requires k <= |cycles|
    ensures Floor(s, most) <= Run(fill, cycles[..k], s)
    ensures k < |cycles| ==> !Underruns(Run(fill, cycles[..k], s), cycles[k], s)
  {
    if k > 0 {
      FloorInvariant(fill, cycles, s, most, k - 1);
      RunAppend(fill, cycles, k - 1, s);
      FloorStep(Run(fill, cycles[..k - 1], s), cycles[k - 1], s, most);
    }
    if k < |cycles| {
      FloorStep(Run(fill, cycles[..k], s), cycles[k], s, most);
    }
  }

  // ----- convergence -----

  /** How far a fill is outside the band. */
  function Distance(fill: nat, s: Setup, most: nat): nat
    requires s.tolerance + most <= s.target
  {
    if fill > Ceiling(s) then fill - Ceiling(s)
    else if fill < Floor(s, most) then Floor(s, most) - fill
    else 0
  }

  predicate Steady(cycle: Cycle, most: nat) {
    && MAX_CORRECTION <= cycle.requested <= most
    && cycle.written < cycle.requested + MAX_CORRECTION
    && cycle.requested < cycle.written + MAX_CORRECTION
  }

  /** Outside the band every cycle brings the fill at least one frame closer; inside, it stays inside. */
  lemma DistanceFalls(fill: nat, cycle: Cycle, s: Setup, most: nat)
    requires s.tolerance + most <= s.target && Steady(cycle, most) && !Overruns(fill, cycle, s)
    ensures Distance(Step(fill, cycle, s), s, most)
         <= if Distance(fill, s, most) == 0 then 0 else Distance(fill, s, most) - 1
  {
  }

  /**
    From any starting fill, an empty ring included, the band is reached within
    Distance(fill) cycles and never left again.
   */
  lemma {:induction false} Convergence(fill: nat, cycles: seq<Cycle>, s: Setup, most: nat, k: nat)
    requires s.tolerance + most <= s.target
    requires forall i | 0 <= i < |cycles| ::
               Steady(cycles[i], most) && Max(fill, Ceiling(s)) + cycles[i].written <= s.capacity
    requires k <= |cycles|
    ensures Distance(Run(fill, cycles[..k], s), s, most)
         <= if Distance(fill, s, most) <= k then 0 else Distance(fill, s, most) - k
    ensures Distance(fill, s, most) <= k ==> Floor(s, most) <= Run(fill, cycles[..k], s) <= Ceiling(s)
  {
    if k > 0 {
      Convergence(fill, cycles, s, most, k - 1);
      CeilingInvariant(fill, cycles, s, k - 1);
      RunAppend(fill, cycles, k - 1, s);
      DistanceFalls(Run(fill, cycles[..k - 1], s), cycles[k - 1], s, most);
    }
  }

  /** The correction limit is sharp: one frame per cycle beyond it, and the fill grows until a write is refused. */
  lemma {:induction false} FasterWriterDiverges(fill: nat, cycles: seq<Cycle>, s: Setup, k: nat)
    requires forall i | 0 <= i < |cycles| :: cycles[i].written > cycles[i].requested + MAX_CORRECTION
    requires k <= |cycles| && forall i | 0 <= i < k :: !Overruns(Run(fill, cycles[..i], s), cycles[i], s)
    ensures Run(fill, cycles[..k], s) >= fill + k
  {
    if k > 0 {
      FasterWriterDiverges(fill, cycles, s, k - 1);
      RunAppend(fill, cycles, k - 1, s);
    }
  }

  /** So from a fill the ring can have, an overrun is counted within as many cycles as there is room, plus one. */
  lemma FasterWriterOverflows(fill: nat, cycles: seq<Cycle>, s: Setup)
    requires forall i | 0 <= i < |cycles| :: cycles[i].written > cycles[i].requested + MAX_CORRECTION
    requires fill <= s.capacity && |cycles| > s.capacity - fill
    ensures exists i :: 0 <= i <= s.capacity - fill && Overruns(Run(fill, cycles[..i], s), cycles[i], s)
  {
    var n := s.capacity - fill;
    if forall i | 0 <= i < n + 1 :: !Overruns(Run(fill, cycles[..i], s), cycles[i], s) {
      FasterWriterDiverges(fill, cycles, s, n);
    }
  }

  lemma SlowStep(fill: nat, cycle: Cycle, s: Setup)
    requires cycle.requested > cycle.written + MAX_CORRECTION && !Underruns(fill, cycle, s)
    ensures Step(fill, cycle, s) < fill
  {
  }

  /** The same on the other side: until an underrun is counted, the fill falls every cycle. */
  lemma {:induction false} SlowerWriterDrains(fill: nat, cycles: seq<Cycle>, s: Setup, k: nat)
    requires forall i | 0 <= i < |cycles| :: cycles[i].requested > cycles[i].written + MAX_CORRECTION
    requires k <= |cycles| && forall i | 0 <= i < k :: !Underruns(Run(fill, cycles[..i], s), cycles[i], s)
    ensures Run(fill, cycles[..k], s) + k <= fill
  {
    if k > 0 {
      SlowerWriterDrains(fill, cycles, s, k - 1);
      RunAppend(fill, cycles, k - 1, s);
      SlowStep(Run(fill, cycles[..k - 1], s), cycles[k - 1], s);
    }
  }

  /** So one is counted within as many cycles as there are frames, plus one. */
  lemma SlowerWriterStarves(fill: nat, cycles: seq<Cycle>, s: Setup)
    requires forall i | 0 <= i < |cycles| :: cycles[i].requested > cycles[i].written + MAX_CORRECTION
    requires |cycles| > fill
    ensures exists i :: 0 <= i <= fill && Underruns(Run(fill, cycles[..i], s), cycles[i], s)
  {
    if forall i | 0 <= i < fill + 1 :: !Underruns(Run(fill, cycles[..i], s), cycles[i], s) {
      SlowerWriterDrains(fill, cycles, s, fill + 1);
    }
  }

  // ----- the constants of the CoreAudio driver over the daemon's ring -----

  const DRIVER := Setup(4800, 2400, 48000)

  /**
    With buffers of at most 2400 frames and writes at most eight frames short of
    each request, however much longer, the driver never underruns, from any
    fill.
   */
  lemma DriverNeverStarves(fill: nat, cycles: seq<Cycle>, k: nat)
    requires forall i | 0 <= i < |cycles| ::
               && cycles[i].requested <= 2400 && cycles[i].requested <= cycles[i].written + MAX_CORRECTION
               && cycles[i].written <= 45600
    requires k < |cycles|
    ensures !Underruns(Run(fill, cycles[..k], DRIVER), cycles[k], DRIVER)
  {
    FloorInvariant(fill, cycles, DRIVER, 2400, k);
  }

  /** With writes at most eight frames over each request it never overruns, from any fill StartIO leaves. */
  lemma DriverNeverOverflows(fill: nat, cycles: seq<Cycle>, k: nat)
    requires fill <= DRIVER.target
    requires forall i | 0 <= i < |cycles| ::
               cycles[i].written <= 40800 && cycles[i].written <= cycles[i].requested + MAX_CORRECTION
    requires k < |cycles|
    ensures Run(fill, cycles[..k], DRIVER) <= 7200
    ensures !Overruns(Run(fill, cycles[..k], DRIVER), cycles[k], DRIVER)
  {
    CeilingInvariant(fill, cycles, DRIVER, k);
  }
}

/** The 16-bit packet counter: note_counter of the daemon and of both other frontends. */
module LossCounter {
  const TWO16: nat := 0x1_0000

  /** last_counter, have_last_counter and lost_packets. */
  datatype Tracker = Tracker(have: bool, last: nat, lost: nat)

  const FRESH := Tracker(false, 0, 0)

  function Note(t: Tracker, counter: nat): Tracker {
    var lost :=
      if !t.have then 0 else
      var expected := (t.last + 1) % TWO16;
      if counter == expected then 0 else
      var gap := (counter - expected) % TWO16;
      if gap < 32768 then gap else 1;
    Tracker(true, counter, t.lost + lost)
  }

  function NoteAll(counters: seq<nat>): Tracker {
    if counters == [] then FRESH
    else Note(NoteAll(counters[..|counters| - 1]), counters[|counters| - 1])
  }

  /** What the wire shows of packets with these true numbers. */
  function Wire(numbers: seq<nat>): (r: seq<nat>)
    ensures |r| == |numbers| && forall i | 0 <= i < |r| :: r[i] == numbers[i] % TWO16
  {
    seq(|numbers|, i requires 0 <= i < |numbers| => numbers[i] % TWO16)
  }

  /** How many numbers there are from the first to the last. */
  function Span(numbers: seq<nat>): int
    requires numbers != []
  {
    numbers[|numbers| - 1] as int - numbers[0] as int + 1
  }

  ghost predicate Increasing(numbers: seq<nat>) {
    forall i | 0 <= i < |numbers| - 1 :: numbers[i] < numbers[i + 1]
  }

  /** No run of losses is longer than the counter can tell from a step back. */
  ghost predicate ShortGaps(numbers: seq<nat>) {
    forall i | 0 <= i < |numbers| - 1 :: numbers[i + 1] <= numbers[i] + 32768
  }

  lemma ModDifference(a: nat, b: nat)
    requires a < b
    ensures (b % TWO16 - (a % TWO16 + 1) % TWO16) % TWO16 == (b - a - 1) % TWO16
  {
    var wrapped := if a % TWO16 + 1 == TWO16 then 1 else 0;
    assert (a % TWO16 + 1) % TWO16 == a % TWO16 + 1 - wrapped * TWO16;
    SameRemainder(b % TWO16 - (a % TWO16 + 1) % TWO16, b - a - 1, b / TWO16 - a / TWO16 - wrapped);
  }

  lemma SameRemainder(x: int, y: int, laps: int)
    requires y == x + laps * TWO16
    ensures x % TWO16 == y % TWO16
  {
  }

  /** Lost packets that one step of `d` numbers hides. */
  function Hidden(d: nat): int
    requires d > 0
  {
    var gap := (d - 1) % TWO16;
    d - 1 - if gap < 32768 then gap else 1
  }

  /** Nothing is hidden exactly while the counter can tell the gap from a step back. */
  lemma HiddenIsNothingIff(d: nat)
    requires d > 0
    ensures Hidden(d) >= 0 && (Hidden(d) == 0 <==> d <= 32768)
  {
  }

  /** What one step adds to the losses. */
  lemma StepLoss(t: Tracker, a: nat, b: nat)
    requires t.have && t.last == a % TWO16 && a < b
    ensures Note(t, b % TWO16).lost - t.lost == b - a - 1 - Hidden(b - a)
  {
    ModDifference(a, b);
  }

  /** Lost packets that a whole run hides. */
  function Undercount(numbers: seq<nat>): int
    requires Increasing(numbers)
  {
    var n := |numbers|;
    if n <= 1 then 0
    else
      assert Increasing(numbers[..n - 1]) && numbers[n - 2] < numbers[n - 2 + 1];
      Undercount(numbers[..n - 1]) + Hidden(numbers[n - 1] - numbers[n - 2])
  }

  lemma ShortGapsSplit(numbers: seq<nat>)
    requires |numbers| > 1
    ensures var n := |numbers|;
            ShortGaps(numbers) <==> ShortGaps(numbers[..n - 1]) && numbers[n - 1] <= numbers[n - 2] + 32768
  {
    var n := |numbers|;
    var front := numbers[..n - 1];
    if ShortGaps(front) && numbers[n - 1] <= numbers[n - 2] + 32768 {
      forall i | 0 <= i < n - 1 ensures numbers[i + 1] <= numbers[i] + 32768 {
        if i < n - 2 { assert front[i + 1] <= front[i] + 32768; }
      }
    }
  }

  /** A run hides nothing if and only if no two consecutive noted packets are more than 32768 apart. */
  lemma {:induction false} UndercountIsNothingIff(numbers: seq<nat>)
    requires Increasing(numbers)
    ensures Undercount(numbers) >= 0 && (Undercount(numbers) == 0 <==> ShortGaps(numbers))
  {
    var n := |numbers|;
    if n > 1 {
      UndercountIsNothingIff(numbers[..n - 1]);
      ShortGapsSplit(numbers);
      assert numbers[n - 2] < numbers[n - 2 + 1];
      HiddenIsNothingIff(numbers[n - 1] - numbers[n - 2]);
    }
  }

  lemma {:induction false} Remembers(numbers: seq<nat>)
    requires numbers != []
    ensures var t := NoteAll(Wire(numbers)); t.have && t.last == numbers[|numbers| - 1] % TWO16
  {
  }

  /** What noting one more packet adds to the losses, against the numbers it skipped. */
  lemma LastStep(numbers: seq<nat>)
    requires |numbers| > 1 && Increasing(numbers)
    ensures var n := |numbers|;
            && numbers[n - 2] < numbers[n - 1]
            && NoteAll(Wire(numbers)).lost - NoteAll(Wire(numbers[..n - 1])).lost
            == numbers[n - 1] - numbers[n - 2] - 1 - Hidden(numbers[n - 1] - numbers[n - 2])
  {
    var n := |numbers|;
    var front := numbers[..n - 1];
    assert numbers[n - 2] < numbers[n - 2 + 1];
    Remembers(front);
    assert Wire(numbers)[..n - 1] == Wire(front);
    StepLoss(NoteAll(Wire(front)), numbers[n - 2], numbers[n - 1]);
  }

  /** Through any number of wraparounds, received plus lost plus hidden is the span of true numbers. */
  lemma {:induction false} LossAndUndercountIsSpan(numbers: seq<nat>)
    requires numbers != [] && Increasing(numbers)
    ensures |numbers| + NoteAll(Wire(numbers)).lost + Undercount(numbers) == Span(numbers)
  {
    var n := |numbers|;
    if n > 1 {
      LossAndUndercountIsSpan(numbers[..n - 1]);
      LastStep(numbers);
    }
  }

  /**
    So received plus lost never exceeds the span, and equals it if and only if
    no two consecutive noted packets are more than 32768 apart.
   */
  lemma {:induction false} LossIsExactIffGapsAreShort(numbers: seq<nat>)
    requires numbers != [] && Increasing(numbers)
    ensures |numbers| + NoteAll(Wire(numbers)).lost <= Span(numbers)
    ensures |numbers| + NoteAll(Wire(numbers)).lost == Span(numbers) <==> ShortGaps(numbers)
  {
    LossAndUndercountIsSpan(numbers);
    UndercountIsNothingIff(numbers);
  }

  /** Packets 0 and 32769: one loss is counted for 32768. */
  lemma LongGapExample()
    ensures Increasing([0, 32769]) && !ShortGaps([0, 32769])
    ensures |[0, 32769]| + NoteAll(Wire([0, 32769])).lost == 3 && Span([0, 32769]) == 32770
  {
    var numbers := [0, 32769];
    assert numbers[..1] == [0];
    assert numbers[0 + 1] > numbers[0] + 32768;
    LastStep(numbers);
    assert NoteAll(Wire([0])).lost == 0;
  }
}

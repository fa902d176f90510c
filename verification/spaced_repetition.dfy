/** The scheduling calculator: a simplified SM-2 rule that maps the outcome of
    one review and the prior scheduling state (ease factor, interval,
    repetition count) to the next state and the next review date.

    Ease factors are whole tenths (25 stands for 2.5); every constant and every
    step of the rule lies on that grid. Days and dates are integers: a date is
    a day number, so "plus n days" is "+ n". The reference date, which the
    original reads from the clock, is the parameter `today`. */
module SpacedRepetition {

  const MinEase: int := 13         // 1.3
  const DefaultEase: int := 25     // 2.5
  const MaxEase: int := 30         // 3.0
  const FirstInterval: int := 1
  const SecondInterval: int := 6

  /** The calculator's answer: new ease (tenths), interval (days),
      repetition count and the day of the next review. */
  datatype ReviewResult = ReviewResult(easeFactor: int, intervalDays: int, repetitions: int, nextReviewDate: int)

  /** A scheduling state the calculator keeps stable: ease within
      [1.3, 3.0] and an interval of at least one day. */
  predicate Scheduled(easeFactor: int, intervalDays: int) {
    MinEase <= easeFactor <= MaxEase && intervalDays >= 1
  }

  /** `interval × ease` rounded to the nearest whole day, halves upwards:
      the integer reading of `Math.round` applied to a float product. */
  function RoundProduct(intervalDays: int, easeFactor: int): (r: int)
    ensures 10 * r - 5 <= intervalDays * easeFactor < 10 * r + 5
  {
    (intervalDays * easeFactor + 5) / 10
  }

  /** One step of the schedule. Total: any integers are accepted, as in the
      original, so the ease bounds hold only when the input respects them
      (each branch clamps one side only). */
  function CalculateNextReview(wasCorrect: bool, easeFactor: int, intervalDays: int, repetitions: int, today: int): (r: ReviewResult)
    // a correct answer extends the run, a wrong one resets it and the interval
    ensures wasCorrect ==> r.repetitions == repetitions + 1
    ensures !wasCorrect ==> r.repetitions == 0 && r.intervalDays == FirstInterval
    // ease: one tenth up, never above 3.0; two tenths down, never below 1.3
    ensures wasCorrect ==> r.easeFactor <= MaxEase && r.easeFactor <= easeFactor + 1
                           && (r.easeFactor == easeFactor + 1 || r.easeFactor == MaxEase)
    ensures !wasCorrect ==> r.easeFactor >= MinEase && r.easeFactor >= easeFactor - 2
                            && (r.easeFactor == easeFactor - 2 || r.easeFactor == MinEase)
    // interval after a correct answer: 1 day, then 6, then the rounded product
    ensures wasCorrect && r.repetitions == 1 ==> r.intervalDays == FirstInterval
    ensures wasCorrect && r.repetitions == 2 ==> r.intervalDays == SecondInterval
    ensures wasCorrect && r.repetitions != 1 && r.repetitions != 2 ==>
              10 * r.intervalDays - 5 <= intervalDays * r.easeFactor < 10 * r.intervalDays + 5
    ensures r.nextReviewDate == today + r.intervalDays
  {
    if wasCorrect then
      var reps := repetitions + 1;
      var ease := if easeFactor + 1 > MaxEase then MaxEase else easeFactor + 1;
      var interval :=
        if reps == 1 then FirstInterval
        else if reps == 2 then SecondInterval
        else RoundProduct(intervalDays, ease);
      ReviewResult(ease, interval, reps, today + interval)
    else
      var ease := if easeFactor - 2 < MinEase then MinEase else easeFactor - 2;
      ReviewResult(ease, FirstInterval, 0, today + FirstInterval)
  }

  /** The first review of a question starts from the default ease, no
      interval and no run of correct answers. */
  function CalculateFirstReview(wasCorrect: bool, today: int): (r: ReviewResult)
    ensures r == CalculateNextReview(wasCorrect, DefaultEase, 0, 0, today)
    ensures wasCorrect ==> r.easeFactor == 26 && r.repetitions == 1
    ensures !wasCorrect ==> r.easeFactor == 23 && r.repetitions == 0
    ensures r.intervalDays == FirstInterval && r.nextReviewDate == today + 1
  {
    CalculateNextReview(wasCorrect, DefaultEase, 0, 0, today)
  }

  /** An ease factor inside [1.3, 3.0] stays inside it, whatever the outcome. */
  lemma EaseStaysInRange(wasCorrect: bool, easeFactor: int, intervalDays: int, repetitions: int, today: int)
    requires MinEase <= easeFactor <= MaxEase
    ensures var r := CalculateNextReview(wasCorrect, easeFactor, intervalDays, repetitions, today);
            MinEase <= r.easeFactor <= MaxEase
  {
  }

  /** i ≤ round(i × e/10) ≤ 3i for any ease e between 1.0 and 3.0. */
  lemma RoundProductBounds(intervalDays: int, easeFactor: int)
    requires intervalDays >= 0 && 10 <= easeFactor <= MaxEase
    ensures intervalDays <= RoundProduct(intervalDays, easeFactor) <= 3 * intervalDays
  {
    var r := RoundProduct(intervalDays, easeFactor);
    assert intervalDays * 10 <= intervalDays * easeFactor <= intervalDays * MaxEase;
    assert 10 * r + 5 > 10 * intervalDays;
    assert 10 * r - 5 <= 30 * intervalDays;
  }

  /** From a scheduled state the next state is scheduled too: the ease stays
      in range and the interval is at least a day. */
  lemma ScheduleIsPreserved(wasCorrect: bool, easeFactor: int, intervalDays: int, repetitions: int, today: int)
    requires Scheduled(easeFactor, intervalDays)
    ensures var r := CalculateNextReview(wasCorrect, easeFactor, intervalDays, repetitions, today);
            Scheduled(r.easeFactor, r.intervalDays)
  {
    var r := CalculateNextReview(wasCorrect, easeFactor, intervalDays, repetitions, today);
    if wasCorrect && r.repetitions != 1 && r.repetitions != 2 {
      RoundProductBounds(intervalDays, r.easeFactor);
    }
  }

  /** From the third correct answer in a row on, the interval never shrinks
      and at most triples. */
  lemma IntervalGrowth(easeFactor: int, intervalDays: int, repetitions: int, today: int)
    requires Scheduled(easeFactor, intervalDays)
    requires repetitions >= 2
    ensures var r := CalculateNextReview(true, easeFactor, intervalDays, repetitions, today);
            intervalDays <= r.intervalDays <= 3 * intervalDays
  {
    var r := CalculateNextReview(true, easeFactor, intervalDays, repetitions, today);
    RoundProductBounds(intervalDays, r.easeFactor);
  }

  /** Chains the calculator over a sequence of outcomes, all on the same day,
      the way the demonstration driver does: the first answer goes through
      CalculateFirstReview, each later one through CalculateNextReview fed
      with the previous result. Every state reached is scheduled. */
  function Replay(outcomes: seq<bool>, today: int): (rs: seq<ReviewResult>)
    ensures |rs| == |outcomes|
    ensures forall k :: 0 <= k < |rs| ==> Scheduled(rs[k].easeFactor, rs[k].intervalDays)
    ensures forall k :: 0 <= k < |rs| ==> rs[k].repetitions >= 0
    decreases |outcomes|
  {
    if |outcomes| == 0 then []
    else if |outcomes| == 1 then [CalculateFirstReview(outcomes[0], today)]
    else
      var prev := Replay(outcomes[..|outcomes| - 1], today);
      var p := prev[|prev| - 1];
      ScheduleIsPreserved(outcomes[|outcomes| - 1], p.easeFactor, p.intervalDays, p.repetitions, today);
      prev + [CalculateNextReview(outcomes[|outcomes| - 1], p.easeFactor, p.intervalDays, p.repetitions, today)]
  }

  /** Number of trailing `true`s: the run of correct answers ending a history
      written oldest first. */
  function TrailingRun(outcomes: seq<bool>): (n: nat)
    ensures n <= |outcomes|
    ensures forall k :: |outcomes| - n <= k < |outcomes| ==> outcomes[k]
    ensures n < |outcomes| ==> !outcomes[|outcomes| - 1 - n]
  {
    if |outcomes| == 0 || !outcomes[|outcomes| - 1] then 0
    else TrailingRun(outcomes[..|outcomes| - 1]) + 1
  }

  /** Replay is prefix-stable: the first k states depend only on the first k
      outcomes. */
  lemma {:induction false} ReplayPrefix(outcomes: seq<bool>, k: nat, today: int)
    requires k <= |outcomes|
    ensures Replay(outcomes, today)[..k] == Replay(outcomes[..k], today)
    decreases |outcomes|
  {
    if k == |outcomes| {
      assert outcomes[..k] == outcomes;
    } else {
      var n := |outcomes|;
      assert n >= 1;
      if n == 1 {
        assert k == 0;
      } else {
        ReplayPrefix(outcomes[..n - 1], k, today);
        assert outcomes[..n - 1][..k] == outcomes[..k];
        assert Replay(outcomes, today)[..n - 1] == Replay(outcomes[..n - 1], today);
      }
    }
  }

  /** Each state of a replay is the calculator applied to the one before it. */
  lemma ReplayStep(outcomes: seq<bool>, k: nat, today: int)
    requires 1 <= k < |outcomes|
    ensures var rs := Replay(outcomes, today);
            rs[k] == CalculateNextReview(outcomes[k], rs[k - 1].easeFactor, rs[k - 1].intervalDays, rs[k - 1].repetitions, today)
  {
    ReplayPrefix(outcomes, k + 1, today);
    var o := outcomes[..k + 1];
    assert o[..k] == outcomes[..k];
    ReplayPrefix(outcomes, k, today);
    assert Replay(o, today)[k - 1] == Replay(outcomes, today)[k - 1];
  }

  /** The repetition count the calculator reports after k+1 answers is the run
      of correct answers that ends them. */
  lemma {:induction false} ReplayRepetitions(outcomes: seq<bool>, k: nat, today: int)
    requires k < |outcomes|
    ensures Replay(outcomes, today)[k].repetitions == TrailingRun(outcomes[..k + 1])
  {
    var rs := Replay(outcomes, today);
    var o := outcomes[..k + 1];
    assert o[..k] == outcomes[..k];
    if k == 0 {
      ReplayPrefix(outcomes, 1, today);
      assert TrailingRun(o) == if outcomes[0] then TrailingRun(o[..0]) + 1 else 0;
    } else {
      ReplayStep(outcomes, k, today);
      ReplayRepetitions(outcomes, k - 1, today);
      assert TrailingRun(o) == if outcomes[k] then TrailingRun(outcomes[..k]) + 1 else 0;
    }
  }

  /** An unbroken run of correct answers from a fresh question: the ease
      climbs a tenth per answer up to 3.0, the run length counts the answers,
      and the intervals go 1, 6, then the previous interval times the ease,
      rounded. */
  lemma {:induction false} CorrectRun(outcomes: seq<bool>, k: nat, today: int)
    requires k < |outcomes|
    requires forall j :: 0 <= j < |outcomes| ==> outcomes[j]
    ensures var rs := Replay(outcomes, today);
            && rs[k].repetitions == k + 1
            && rs[k].easeFactor == (if DefaultEase + k + 1 > MaxEase then MaxEase else DefaultEase + k + 1)
            && rs[k].intervalDays == (if k == 0 then FirstInterval
                                      else if k == 1 then SecondInterval
                                      else RoundProduct(rs[k - 1].intervalDays, rs[k].easeFactor))
  {
    var rs := Replay(outcomes, today);
    if k == 0 {
      ReplayPrefix(outcomes, 1, today);
    } else {
      CorrectRun(outcomes, k - 1, today);
      ReplayStep(outcomes, k, today);
    }
  }

  /** First scenario of the demonstration driver: correct, correct, correct,
      wrong, correct. */
  lemma LearningScenario(today: int)
    ensures var rs := Replay([true, true, true, false, true], today);
            && [rs[0].easeFactor, rs[1].easeFactor, rs[2].easeFactor, rs[3].easeFactor, rs[4].easeFactor] == [26, 27, 28, 26, 27]
            && [rs[0].intervalDays, rs[1].intervalDays, rs[2].intervalDays, rs[3].intervalDays, rs[4].intervalDays] == [1, 6, 17, 1, 1]
  {
    var o := [true, true, true, false, true];
    ReplayPrefix(o, 1, today);
    ReplayStep(o, 1, today);
    ReplayStep(o, 2, today);
    ReplayStep(o, 3, today);
    ReplayStep(o, 4, today);
  }

  /** Second scenario of the demonstration driver: three wrong answers, then
      a correct one. */
  lemma StrugglingScenario(today: int)
    ensures var rs := Replay([false, false, false, true], today);
            && [rs[0].easeFactor, rs[1].easeFactor, rs[2].easeFactor, rs[3].easeFactor] == [23, 21, 19, 20]
            && [rs[0].intervalDays, rs[1].intervalDays, rs[2].intervalDays, rs[3].intervalDays] == [1, 1, 1, 1]
  {
    var o := [false, false, false, true];
    ReplayPrefix(o, 1, today);
    ReplayStep(o, 1, today);
    ReplayStep(o, 2, today);
    ReplayStep(o, 3, today);
  }
}

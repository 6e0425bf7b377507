/** How a proposed swap with a given score delta is accepted: greedily (only
    strict improvements) or by the Metropolis rule of simulated annealing
    under a linear cooling schedule. */
module Acceptance {

  /** T_INITIAL: the temperature when the search starts. */
  const INITIAL_TEMPERATURE: real := 0.0000001
  /** The temperature used once the linear schedule reaches zero or below. */
  const MIN_TEMPERATURE: real := 0.0000000001
  /** TIME_LIMIT_SECONDS: the length of the cooling schedule. */
  const TIME_LIMIT_SECONDS: real := 3600.0

  /** current_temp after `elapsed` seconds: T_INITIAL * (1 - elapsed / limit),
      replaced by the small constant when that is not positive. */
  function Temperature(elapsed: real): (t: real)
    ensures t > 0.0
    ensures 0.0 <= elapsed ==> t <= INITIAL_TEMPERATURE
    ensures elapsed < TIME_LIMIT_SECONDS ==> t * TIME_LIMIT_SECONDS == INITIAL_TEMPERATURE * (TIME_LIMIT_SECONDS - elapsed)
    ensures elapsed >= TIME_LIMIT_SECONDS ==> t == MIN_TEMPERATURE
  {
    var ratio := elapsed / TIME_LIMIT_SECONDS;
    var t := INITIAL_TEMPERATURE * (1.0 - ratio);
    if t <= 0.0 then MIN_TEMPERATURE else t
  }

  /** Within the time limit the schedule cools: a later reading is never warmer. */
  lemma CoolingWithinLimit(e1: real, e2: real)
    requires e1 <= e2 < TIME_LIMIT_SECONDS
    ensures Temperature(e2) <= Temperature(e1)
  {
    var t1, t2 := Temperature(e1), Temperature(e2);
    assert t1 * TIME_LIMIT_SECONDS - t2 * TIME_LIMIT_SECONDS == INITIAL_TEMPERATURE * (e2 - e1);
  }

  /** The floor is not the limit of the schedule: every reading in the last
      3.6 seconds before the deadline is colder than the floor, which is the
      temperature used from the deadline on. */
  lemma FloorAboveScheduleNearDeadline(e: real)
    requires 3596.4 < e < TIME_LIMIT_SECONDS
    ensures Temperature(e) < MIN_TEMPERATURE == Temperature(TIME_LIMIT_SECONDS)
  {
    var t := Temperature(e);
    assert t * TIME_LIMIT_SECONDS == INITIAL_TEMPERATURE * (TIME_LIMIT_SECONDS - e);
  }

  /** What math.exp returns: a value, or OverflowError. */
  datatype ExpOutcome = Finite(value: real) | Overflow

  /** What CPython's math.exp does on a non-positive argument: it returns a
      value in [0, 1] (0.0 once the result underflows) and never raises, and
      exp(0) is exactly 1. */
  ghost predicate ExpOnNonPositive(exp: real -> ExpOutcome) {
    && exp(0.0) == Finite(1.0)
    && (forall x :: x <= 0.0 ==> exp(x).Finite? && 0.0 <= exp(x).value <= 1.0)
  }

  /** acceptance_prob = exp(delta / T), or 0 when exp overflows. For the
      worsening moves it is computed for, it is a probability. */
  function AcceptanceProbability(delta: real, t: real, exp: real -> ExpOutcome): (p: real)
    requires t > 0.0
    ensures exp(delta / t).Overflow? ==> p == 0.0
    ensures exp(delta / t).Finite? ==> p == exp(delta / t).value
    ensures delta <= 0.0 && ExpOnNonPositive(exp) ==> 0.0 <= p <= 1.0
  {
    NonPositiveQuotient(delta, t);
    match exp(delta / t)
    case Finite(v) => v
    case Overflow => 0.0
  }

  /** A non-positive delta over a positive temperature is non-positive. */
  lemma NonPositiveQuotient(delta: real, t: real)
    requires t > 0.0
    ensures delta <= 0.0 ==> delta / t <= 0.0
  {
    if delta <= 0.0 {
      assert delta / t * t == delta;
    }
  }

  /** The OverflowError branch is unreachable: for a worsening move at any
      temperature the schedule produces, exp does not overflow, and the
      acceptance probability is exp(delta / T) itself, in [0, 1]. */
  lemma NoOverflowOnWorseningMove(delta: real, elapsed: real, exp: real -> ExpOutcome)
    requires delta <= 0.0 && ExpOnNonPositive(exp)
    ensures exp(delta / Temperature(elapsed)).Finite?
    ensures AcceptanceProbability(delta, Temperature(elapsed), exp) == exp(delta / Temperature(elapsed)).value
    ensures 0.0 <= AcceptanceProbability(delta, Temperature(elapsed), exp) <= 1.0
  {
    NonPositiveQuotient(delta, Temperature(elapsed));
  }

  /** The outcome of one non-skipped iteration of the search. */
  datatype Decision = Improve | AcceptWorse | Reject

  /** The annealing decision: every improvement is taken; otherwise the move
      is taken when the draw falls below the acceptance probability at the
      current temperature. */
  function Metropolis(delta: real, elapsed: real, draw: real, exp: real -> ExpOutcome): (d: Decision)
    ensures d == Improve <==> delta > 0.0
    ensures d == AcceptWorse <==>
      delta <= 0.0 && draw < AcceptanceProbability(delta, Temperature(elapsed), exp)
    ensures delta <= 0.0 && exp(delta / Temperature(elapsed)).Overflow? && draw >= 0.0 ==> d == Reject
  {
    if delta > 0.0 then Improve
    else if draw < AcceptanceProbability(delta, Temperature(elapsed), exp) then AcceptWorse
    else Reject
  }

  /** The greedy decision: only a strict improvement is taken. */
  function Greedy(delta: real): (d: Decision)
    ensures d != AcceptWorse
    ensures d == Improve <==> delta > 0.0
  {
    if delta > 0.0 then Improve else Reject
  }

  /** Annealing takes every move greedy search takes, and on those it agrees. */
  lemma GreedyWithinMetropolis(delta: real, elapsed: real, draw: real, exp: real -> ExpOutcome)
    ensures Greedy(delta) == Improve ==> Metropolis(delta, elapsed, draw, exp) == Improve
    ensures Metropolis(delta, elapsed, draw, exp) == Reject ==> Greedy(delta) == Reject
  {
  }

  /** A neutral move (delta 0) has acceptance probability exp(0) = 1 and is
      therefore taken for every draw of random() in [0, 1). */
  lemma NeutralMoveAccepted(elapsed: real, draw: real, exp: real -> ExpOutcome)
    requires ExpOnNonPositive(exp)
    requires 0.0 <= draw < 1.0
    ensures Metropolis(0.0, elapsed, draw, exp) == AcceptWorse
  {
    var t := Temperature(elapsed);
    assert 0.0 / t == 0.0;
  }
}

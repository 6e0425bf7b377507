/** The only move of the search: exchanging the universities of two students,
    its O(1) score delta, and the matching update of the merit aggregate. */
module Moves {
  import opened Objective

  /** A proposed exchange of two students' universities. */
  datatype Proposal = Proposal(s1: StudentId, s2: StudentId)

  /** random.sample(student_ids, 2): two distinct students of the list. */
  predicate ValidProposal(students: seq<StudentId>, p: Proposal) {
    p.s1 != p.s2 && p.s1 in students && p.s2 in students
  }

  /** A score trace never goes down. */
  ghost predicate NonDecreasing(trace: seq<real>) {
    forall i, j :: 0 <= i <= j < |trace| ==> trace[i] <= trace[j]
  }

  /** Appending a score no lower than the last keeps a trace non-decreasing. */
  lemma NonDecreasingAppend(trace: seq<real>, x: real)
    requires NonDecreasing(trace) && trace != [] && trace[|trace| - 1] <= x
    ensures NonDecreasing(trace + [x])
  {
  }

  /** How many steps of a walk changed the assignment. */
  ghost function MoveCount(visited: seq<map<StudentId, UniId>>): (n: nat)
    ensures visited != [] ==> n <= |visited| - 1
  {
    if |visited| <= 1 then 0
    else MoveCount(visited[..|visited| - 1]) + (if visited[|visited| - 1] != visited[|visited| - 2] then 1 else 0)
  }

  /** One more step adds one to the count exactly when it changed the assignment. */
  lemma MoveCountAppend(visited: seq<map<StudentId, UniId>>, a: map<StudentId, UniId>)
    requires visited != []
    ensures MoveCount(visited + [a]) == MoveCount(visited) + (if a != visited[|visited| - 1] then 1 else 0)
  {
    var v := visited + [a];
    assert v[..|v| - 1] == visited;
    assert v[|v| - 1] == a && v[|v| - 2] == visited[|visited| - 1];
  }

  /** current_assignments[s1] = u2; current_assignments[s2] = u1 */
  function Swap(a: map<StudentId, UniId>, s1: StudentId, s2: StudentId): (b: map<StudentId, UniId>)
    requires s1 in a && s2 in a
    ensures b.Keys == a.Keys
    ensures b[s1] == a[s2] && b[s2] == a[s1]
    ensures forall s :: s in a && s != s1 && s != s2 ==> b[s] == a[s]
  {
    a[s1 := a[s2]][s2 := a[s1]]
  }

  /** The lookups the delta reads exist: both students are placed and have a
      merit entry, and both universities have a capacity. */
  ghost predicate Movable(inst: Instance, a: map<StudentId, UniId>, s1: StudentId, s2: StudentId) {
    && s1 in a && s2 in a
    && s1 in inst.merit && s2 in inst.merit
    && a[s1] in inst.cap && a[s2] in inst.cap
  }

  /** (new_fe_s1 + new_fe_s2) - (old_fe_s1 + old_fe_s2) */
  function HappinessGain(inst: Instance, a: map<StudentId, UniId>, s1: StudentId, s2: StudentId): real
    requires s1 in a && s2 in a
  {
    var u1, u2 := a[s1], a[s2];
    (Happiness(inst, s1, u2) + Happiness(inst, s2, u1)) - (Happiness(inst, s1, u1) + Happiness(inst, s2, u2))
  }

  /** delta_fpu_u1 + delta_fpu_u2: u1 trades the FU of s1 for that of s2,
      u2 the reverse, each weighted by 1 / cap. */
  function WeightedMeritGain(inst: Instance, a: map<StudentId, UniId>, s1: StudentId, s2: StudentId): real
    requires WellFormed(inst) && Movable(inst, a, s1, s2)
  {
    var u1, u2 := a[s1], a[s2];
    var fu1, fu2 := inst.merit[s1], inst.merit[s2];
    var deltaFpuU1 := CapShare(inst, u1, fu2 - fu1);
    var deltaFpuU2 := CapShare(inst, u2, fu1 - fu2);
    deltaFpuU1 + deltaFpuU2
  }

  /** delta_fpe = (1 / N) * (the FE gain of the two students) */
  function FpeDelta(inst: Instance, feGain: real): real
    requires WellFormed(inst)
  {
    (1.0 / inst.studentCount as real) * feGain
  }

  /** delta_fpu = (1 / U) * (delta_fpu_u1 + delta_fpu_u2) */
  function FpuDelta(inst: Instance, weightedGain: real): real
    requires WellFormed(inst)
  {
    (1.0 / inst.universityCount as real) * weightedGain
  }

  /** delta_score = ALPHA * delta_fpe + (1 - ALPHA) * delta_fpu */
  function SwapDelta(inst: Instance, a: map<StudentId, UniId>, s1: StudentId, s2: StudentId): real
    requires WellFormed(inst) && Movable(inst, a, s1, s2)
  {
    ALPHA * FpeDelta(inst, HappinessGain(inst, a, s1, s2))
      + (1.0 - ALPHA) * FpuDelta(inst, WeightedMeritGain(inst, a, s1, s2))
  }

  /** uni_merit_sum[u1] = uni_merit_sum[u1] - fu_s1 + fu_s2, then
      uni_merit_sum[u2] = uni_merit_sum[u2] - fu_s2 + fu_s1 */
  function ShiftMerit(inst: Instance, sums: map<UniId, real>, a: map<StudentId, UniId>, s1: StudentId, s2: StudentId): map<UniId, real>
    requires s1 in a && s2 in a && s1 in inst.merit && s2 in inst.merit
    requires a[s1] in sums && a[s2] in sums
  {
    var u1, u2 := a[s1], a[s2];
    var fu1, fu2 := inst.merit[s1], inst.merit[s2];
    var sums' := sums[u1 := sums[u1] - fu1 + fu2];
    sums'[u2 := sums'[u2] - fu2 + fu1]
  }

  /** Swapping the same pair again restores the assignment. */
  lemma SwapInvolutive(a: map<StudentId, UniId>, s1: StudentId, s2: StudentId)
    requires s1 in a && s2 in a
    ensures Swap(Swap(a, s1, s2), s1, s2) == a
  {
  }

  /** A swap keeps the student list a valid placement. */
  lemma SwapKeepsPlacement(inst: Instance, students: seq<StudentId>, a: map<StudentId, UniId>, s1: StudentId, s2: StudentId)
    requires Placement(inst, students, a) && s1 in a && s2 in a
    ensures Placement(inst, students, Swap(a, s1, s2))
  {
  }

  /** Two students at the same university: the swap changes nothing and its
      delta is zero. */
  lemma SameUniversityIsNoOp(inst: Instance, a: map<StudentId, UniId>, s1: StudentId, s2: StudentId)
    requires WellFormed(inst) && Movable(inst, a, s1, s2) && a[s1] == a[s2]
    ensures Swap(a, s1, s2) == a
    ensures SwapDelta(inst, a, s1, s2) == 0.0
  {
    var fu1, fu2 := inst.merit[s1], inst.merit[s2];
    CapShareAdd(inst, a[s1], fu2 - fu1, fu1 - fu2);
    assert CapShare(inst, a[s1], (fu2 - fu1) + (fu1 - fu2)) == 0.0;
  }

  /** At the university s1 left, s2 takes the place of s1. */
  lemma HeadsAtFirstSwap(a: map<StudentId, UniId>, s1: StudentId, s2: StudentId)
    requires s1 in a && s2 in a && a[s1] != a[s2]
    ensures Heads(Swap(a, s1, s2), a[s1]) == Heads(a, a[s1]) - {s1} + {s2}
  {
  }

  /** At the university s2 left, s1 takes the place of s2. */
  lemma HeadsAtSecondSwap(a: map<StudentId, UniId>, s1: StudentId, s2: StudentId)
    requires s1 in a && s2 in a && a[s1] != a[s2]
    ensures Heads(Swap(a, s1, s2), a[s2]) == Heads(a, a[s2]) - {s2} + {s1}
  {
  }

  /** Every other university keeps the same students. */
  lemma HeadsElsewhereSwap(a: map<StudentId, UniId>, s1: StudentId, s2: StudentId, u: UniId)
    requires s1 in a && s2 in a && u != a[s1] && u != a[s2]
    ensures Heads(Swap(a, s1, s2), u) == Heads(a, u)
  {
  }

  /** Swapping leaves the head count of `u` as it was. */
  lemma HeadCountSwap(a: map<StudentId, UniId>, s1: StudentId, s2: StudentId, u: UniId)
    requires s1 in a && s2 in a
    ensures HeadCount(Swap(a, s1, s2), u) == HeadCount(a, u)
  {
    if a[s1] == a[s2] {
      assert Swap(a, s1, s2) == a;
    } else if u == a[s1] {
      HeadsAtFirstSwap(a, s1, s2);
      assert s1 in Heads(a, u) && s2 !in Heads(a, u);
    } else if u == a[s2] {
      HeadsAtSecondSwap(a, s1, s2);
      assert s2 in Heads(a, u) && s1 !in Heads(a, u);
    } else {
      HeadsElsewhereSwap(a, s1, s2, u);
    }
  }

  /** Swapping leaves the set of occupied universities as it was. */
  lemma OccupiedSwap(a: map<StudentId, UniId>, s1: StudentId, s2: StudentId)
    requires s1 in a && s2 in a
    ensures Occupied(Swap(a, s1, s2)) == Occupied(a)
  {
    var b := Swap(a, s1, s2);
    forall u | u in Occupied(a) ensures u in Occupied(b) {
      var s :| s in a && a[s] == u;
      var t := if s == s1 then s2 else if s == s2 then s1 else s;
      assert t in b && b[t] == u;
    }
    forall u | u in Occupied(b) ensures u in Occupied(a) {
      var s :| s in b && b[s] == u;
      var t := if s == s1 then s2 else if s == s2 then s1 else s;
      assert t in a && a[t] == u;
    }
  }

  /** The sum of FE after a swap: the two students' old FE out, their new FE in. */
  lemma TotalHappinessSwap(inst: Instance, students: seq<StudentId>, a: map<StudentId, UniId>, s1: StudentId, s2: StudentId)
    requires Placement(inst, students, a) && s1 in a && s2 in a && s1 != s2
    ensures TotalHappiness(inst, students, Swap(a, s1, s2))
         == TotalHappiness(inst, students, a) + HappinessGain(inst, a, s1, s2)
  {
    var b := Swap(a, s1, s2);
    SumOverTwoChanges(students, s => PlacedHappiness(inst, a, s), s => PlacedHappiness(inst, b, s), s1, s2);
  }

  /** The merit sum at `u` after a swap of students at different
      universities: u1 trades the FU of s1 for that of s2, u2 the reverse. */
  lemma MeritAtSwap(inst: Instance, students: seq<StudentId>, a: map<StudentId, UniId>, s1: StudentId, s2: StudentId, u: UniId)
    requires Placement(inst, students, a) && s1 in a && s2 in a && a[s1] != a[s2]
    ensures MeritAt(inst, students, Swap(a, s1, s2), u)
         == MeritAt(inst, students, a, u)
            + (if u == a[s1] then inst.merit[s2] - inst.merit[s1] else 0.0)
            + (if u == a[s2] then inst.merit[s1] - inst.merit[s2] else 0.0)
  {
    var b := Swap(a, s1, s2);
    SumOverTwoChanges(students, s => MeritIfAt(inst, a, u, s), s => MeritIfAt(inst, b, u, s), s1, s2);
  }

  /** Universities other than the two involved keep their merit sums. */
  lemma MeritAtElsewhereSwap(inst: Instance, students: seq<StudentId>, a: map<StudentId, UniId>, s1: StudentId, s2: StudentId)
    requires Placement(inst, students, a) && s1 in a && s2 in a && a[s1] != a[s2]
    ensures forall u :: u != a[s1] && u != a[s2] ==>
      MeritAt(inst, students, Swap(a, s1, s2), u) == MeritAt(inst, students, a, u)
  {
    forall u | u != a[s1] && u != a[s2]
      ensures MeritAt(inst, students, Swap(a, s1, s2), u) == MeritAt(inst, students, a, u)
    {
      MeritAtSwap(inst, students, a, s1, s2, u);
    }
  }

  /** Universities other than the two involved keep their FPU terms. */
  lemma WeightedTermsElsewhereSwap(inst: Instance, students: seq<StudentId>, a: map<StudentId, UniId>, s1: StudentId, s2: StudentId)
    requires Placement(inst, students, a) && s1 in a && s2 in a && a[s1] != a[s2]
    ensures forall u :: u != a[s1] && u != a[s2] ==>
      WeightedTerms(inst, students, Swap(a, s1, s2))(u) == WeightedTerms(inst, students, a)(u)
  {
    MeritAtElsewhereSwap(inst, students, a, s1, s2);
  }

  /** The weighted merit after a swap of students at different universities:
      only the two universities' terms move, by delta_fpu_u1 + delta_fpu_u2. */
  lemma WeightedMeritSwap(inst: Instance, students: seq<StudentId>, a: map<StudentId, UniId>, s1: StudentId, s2: StudentId)
    requires WellFormed(inst) && Placement(inst, students, a) && s1 in a && s2 in a && a[s1] != a[s2]
    ensures WeightedMerit(inst, students, Swap(a, s1, s2))
         == WeightedMerit(inst, students, a) + WeightedMeritGain(inst, a, s1, s2)
  {
    var b := Swap(a, s1, s2);
    var u1, u2 := a[s1], a[s2];
    var fu1, fu2 := inst.merit[s1], inst.merit[s2];
    WeightedTermsElsewhereSwap(inst, students, a, s1, s2);
    MeritAtSwap(inst, students, a, s1, s2, u1);
    MeritAtSwap(inst, students, a, s1, s2, u2);
    WeightedAtShift(inst, students, a, b, u1, fu2 - fu1);
    WeightedAtShift(inst, students, a, b, u2, fu1 - fu2);
    WeightedMeritTwoChanges(inst, students, a, b, u1, u2, CapShare(inst, u1, fu2 - fu1), CapShare(inst, u2, fu1 - fu2));
  }

  /** A total moved by d, divided by n, moves by (1 / n) * d. */
  lemma DivideShift(x: real, x': real, d: real, n: real)
    requires n != 0.0 && x' == x + d
    ensures x' / n == x / n + (1.0 / n) * d
  {
  }

  /** k * (x + d) == k * x + k * d */
  lemma ScaleShift(k: real, x: real, d: real)
    ensures k * (x + d) == k * x + k * d
  {
  }

  /** FPE after a swap of students at different universities is FPE before
      plus delta_fpe. */
  lemma FpeAfterSwap(inst: Instance, students: seq<StudentId>, a: map<StudentId, UniId>, s1: StudentId, s2: StudentId)
    requires WellFormed(inst) && Placement(inst, students, a) && s1 in a && s2 in a && a[s1] != a[s2]
    ensures Fpe(inst, students, Swap(a, s1, s2)) == Fpe(inst, students, a) + FpeDelta(inst, HappinessGain(inst, a, s1, s2))
  {
    TotalHappinessSwap(inst, students, a, s1, s2);
    FpeShift(inst, students, a, Swap(a, s1, s2), HappinessGain(inst, a, s1, s2));
  }

  /** Moving the FE total by g moves FPE by (1 / N) * g. */
  lemma FpeShift(inst: Instance, students: seq<StudentId>, a: map<StudentId, UniId>, b: map<StudentId, UniId>, g: real)
    requires WellFormed(inst)
    requires TotalHappiness(inst, students, b) == TotalHappiness(inst, students, a) + g
    ensures Fpe(inst, students, b) == Fpe(inst, students, a) + FpeDelta(inst, g)
  {
    DivideShift(TotalHappiness(inst, students, a), TotalHappiness(inst, students, b), g, inst.studentCount as real);
  }

  /** FPU after a swap of students at different universities is FPU before
      plus delta_fpu. */
  lemma FpuAfterSwap(inst: Instance, students: seq<StudentId>, a: map<StudentId, UniId>, s1: StudentId, s2: StudentId)
    requires WellFormed(inst) && Placement(inst, students, a) && s1 in a && s2 in a && a[s1] != a[s2]
    ensures Fpu(inst, students, Swap(a, s1, s2)) == Fpu(inst, students, a) + FpuDelta(inst, WeightedMeritGain(inst, a, s1, s2))
  {
    WeightedMeritSwap(inst, students, a, s1, s2);
    FpuShift(inst, students, a, Swap(a, s1, s2), WeightedMeritGain(inst, a, s1, s2));
  }

  /** Moving the weighted merit by g moves FPU by (1 / U) * g. */
  lemma FpuShift(inst: Instance, students: seq<StudentId>, a: map<StudentId, UniId>, b: map<StudentId, UniId>, g: real)
    requires WellFormed(inst)
    requires WeightedMerit(inst, students, b) == WeightedMerit(inst, students, a) + g
    ensures Fpu(inst, students, b) == Fpu(inst, students, a) + FpuDelta(inst, g)
  {
    ScaleShift(1.0 / inst.universityCount as real, WeightedMerit(inst, students, a), g);
  }

  /** Moving FPE by x and FPU by y moves the score by ALPHA * x + (1 - ALPHA) * y. */
  lemma ScoreMix(inst: Instance, students: seq<StudentId>, a: map<StudentId, UniId>, b: map<StudentId, UniId>, x: real, y: real)
    requires WellFormed(inst)
    requires Fpe(inst, students, b) == Fpe(inst, students, a) + x
    requires Fpu(inst, students, b) == Fpu(inst, students, a) + y
    ensures Score(inst, students, b) == Score(inst, students, a) + (ALPHA * x + (1.0 - ALPHA) * y)
  {
    ScaleShift(ALPHA, Fpe(inst, students, a), x);
    ScaleShift(1.0 - ALPHA, Fpu(inst, students, a), y);
  }

  /** Delta correctness: for two students at different universities, the
      score recomputed from scratch after the swap is the score before plus
      SwapDelta. */
  lemma DeltaCorrect(inst: Instance, students: seq<StudentId>, a: map<StudentId, UniId>, s1: StudentId, s2: StudentId)
    requires WellFormed(inst) && Placement(inst, students, a) && s1 in a && s2 in a && a[s1] != a[s2]
    ensures Placement(inst, students, Swap(a, s1, s2))
    ensures Score(inst, students, Swap(a, s1, s2)) == Score(inst, students, a) + SwapDelta(inst, a, s1, s2)
  {
    SwapKeepsPlacement(inst, students, a, s1, s2);
    FpeAfterSwap(inst, students, a, s1, s2);
    FpuAfterSwap(inst, students, a, s1, s2);
    ScoreMix(inst, students, a, Swap(a, s1, s2),
      FpeDelta(inst, HappinessGain(inst, a, s1, s2)), FpuDelta(inst, WeightedMeritGain(inst, a, s1, s2)));
  }

  /** Undoing a swap has exactly the opposite delta. */
  lemma DeltaAntisymmetric(inst: Instance, students: seq<StudentId>, a: map<StudentId, UniId>, s1: StudentId, s2: StudentId)
    requires WellFormed(inst) && Placement(inst, students, a) && s1 in a && s2 in a && a[s1] != a[s2]
    ensures SwapDelta(inst, Swap(a, s1, s2), s1, s2) == -SwapDelta(inst, a, s1, s2)
  {
    DeltaCorrect(inst, students, a, s1, s2);
    DeltaCorrect(inst, students, Swap(a, s1, s2), s1, s2);
    SwapInvolutive(a, s1, s2);
  }

  /** The merit-aggregate update keeps the aggregate equal to the recomputed
      merit sums of the swapped assignment. */
  lemma MeritSumsAfterSwap(inst: Instance, students: seq<StudentId>, a: map<StudentId, UniId>, sums: map<UniId, real>, s1: StudentId, s2: StudentId)
    requires Placement(inst, students, a) && MeritSumsAgree(inst, students, a, sums)
    requires s1 in a && s2 in a && a[s1] != a[s2]
    ensures a[s1] in sums && a[s2] in sums
    ensures MeritSumsAgree(inst, students, Swap(a, s1, s2), ShiftMerit(inst, sums, a, s1, s2))
  {
    var b := Swap(a, s1, s2);
    assert a[s1] in Occupied(a) && a[s2] in Occupied(a);
    OccupiedSwap(a, s1, s2);
    var sums' := ShiftMerit(inst, sums, a, s1, s2);
    forall u ensures SumOrZero(sums', u) == MeritAt(inst, students, b, u) {
      MeritAtSwap(inst, students, a, s1, s2, u);
    }
  }

  /** Everything an accepted swap of students at different universities
      keeps: the placement, the agreement of the shifted merit sums, the
      score moving by exactly the delta, and every head count. */
  lemma AcceptedSwap(inst: Instance, students: seq<StudentId>, a: map<StudentId, UniId>, sums: map<UniId, real>, s1: StudentId, s2: StudentId)
    requires WellFormed(inst) && Placement(inst, students, a) && MeritSumsAgree(inst, students, a, sums)
    requires s1 in a && s2 in a && a[s1] != a[s2]
    ensures a[s1] in sums && a[s2] in sums
    ensures Placement(inst, students, Swap(a, s1, s2))
    ensures MeritSumsAgree(inst, students, Swap(a, s1, s2), ShiftMerit(inst, sums, a, s1, s2))
    ensures Score(inst, students, Swap(a, s1, s2)) == Score(inst, students, a) + SwapDelta(inst, a, s1, s2)
    ensures forall u :: HeadCount(Swap(a, s1, s2), u) == HeadCount(a, u)
  {
    DeltaCorrect(inst, students, a, s1, s2);
    MeritSumsAfterSwap(inst, students, a, sums, s1, s2);
    forall u ensures HeadCount(Swap(a, s1, s2), u) == HeadCount(a, u) {
      HeadCountSwap(a, s1, s2, u);
    }
  }
}

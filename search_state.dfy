/** The state the search walks: the current assignment, the per-university
    merit sums kept beside it, and the running score. */
module Search {
  import opened Objective
  import opened Moves
  import opened Acceptance

  /** What one iteration of the annealing loop did. */
  datatype StepOutcome = Skipped | Decided(decision: Decision)

  /** The assignment one greedy iteration leaves: the swap of the proposed
      pair when the two sit at different universities and the swap strictly
      raises the score, the assignment as it was otherwise. */
  ghost function GreedyNext(inst: Instance, a: map<StudentId, UniId>, p: Proposal): map<StudentId, UniId>
    requires WellFormed(inst)
  {
    if Movable(inst, a, p.s1, p.s2) && a[p.s1] != a[p.s2] && SwapDelta(inst, a, p.s1, p.s2) > 0.0
    then Swap(a, p.s1, p.s2)
    else a
  }

  /** The assignment one annealing iteration leaves: the swap of the
      proposed pair when the two sit at different universities and the
      Metropolis decision at the temperature read `elapsed` seconds in, with
      draw `draw`, does not reject it; the assignment as it was otherwise. */
  ghost function AnnealNext(inst: Instance, a: map<StudentId, UniId>, p: Proposal,
                            elapsed: real, draw: real, exp: real -> ExpOutcome): map<StudentId, UniId>
    requires WellFormed(inst)
  {
    if Movable(inst, a, p.s1, p.s2) && a[p.s1] != a[p.s2]
       && Metropolis(SwapDelta(inst, a, p.s1, p.s2), elapsed, draw, exp) != Reject
    then Swap(a, p.s1, p.s2)
    else a
  }

  /** A greedy iteration keeps the placement and never lowers the score
      recomputed from scratch; when it moves, the score rises strictly. */
  lemma GreedyNextImproves(inst: Instance, students: seq<StudentId>, a: map<StudentId, UniId>, p: Proposal)
    requires WellFormed(inst) && Placement(inst, students, a) && ValidProposal(students, p)
    ensures Placement(inst, students, GreedyNext(inst, a, p))
    ensures Score(inst, students, GreedyNext(inst, a, p)) >= Score(inst, students, a)
    ensures GreedyNext(inst, a, p) != a ==> Score(inst, students, GreedyNext(inst, a, p)) > Score(inst, students, a)
  {
    if a[p.s1] != a[p.s2] {
      DeltaCorrect(inst, students, a, p.s1, p.s2);
    }
  }

  /** An annealing iteration keeps the placement. A move it makes without
      raising the score recomputed from scratch is a swap whose draw fell
      below the acceptance probability at that temperature. */
  lemma AnnealNextWorsening(inst: Instance, students: seq<StudentId>, a: map<StudentId, UniId>, p: Proposal,
                            elapsed: real, draw: real, exp: real -> ExpOutcome)
    requires WellFormed(inst) && Placement(inst, students, a) && ValidProposal(students, p)
    ensures Placement(inst, students, AnnealNext(inst, a, p, elapsed, draw, exp))
    ensures AnnealNext(inst, a, p, elapsed, draw, exp) != a
            && Score(inst, students, AnnealNext(inst, a, p, elapsed, draw, exp)) <= Score(inst, students, a) ==>
              draw < AcceptanceProbability(SwapDelta(inst, a, p.s1, p.s2), Temperature(elapsed), exp)
  {
    if a[p.s1] != a[p.s2] {
      DeltaCorrect(inst, students, a, p.s1, p.s2);
    }
  }

  /** An annealing iteration keeps the placement and every university's
      head count. */
  lemma AnnealNextKeepsPlacement(inst: Instance, students: seq<StudentId>, a: map<StudentId, UniId>, p: Proposal,
                                 elapsed: real, draw: real, exp: real -> ExpOutcome)
    requires WellFormed(inst) && Placement(inst, students, a) && ValidProposal(students, p)
    ensures Placement(inst, students, AnnealNext(inst, a, p, elapsed, draw, exp))
    ensures forall u :: HeadCount(AnnealNext(inst, a, p, elapsed, draw, exp), u) == HeadCount(a, u)
  {
    SwapKeepsPlacement(inst, students, a, p.s1, p.s2);
    forall u {
      HeadCountSwap(a, p.s1, p.s2, u);
    }
  }

  /** Every move the greedy iteration makes, the annealing iteration makes
      too, whatever the temperature and the draw. */
  lemma GreedyNextWithinAnneal(inst: Instance, a: map<StudentId, UniId>, p: Proposal,
                               elapsed: real, draw: real, exp: real -> ExpOutcome)
    requires WellFormed(inst)
    ensures GreedyNext(inst, a, p) != a ==> AnnealNext(inst, a, p, elapsed, draw, exp) == GreedyNext(inst, a, p)
  {
    if Movable(inst, a, p.s1, p.s2) && a[p.s1] != a[p.s2] {
      GreedyWithinMetropolis(SwapDelta(inst, a, p.s1, p.s2), elapsed, draw, exp);
    }
  }

  class SearchState {
    const inst: Instance
    const students: seq<StudentId>
    var assignment: map<StudentId, UniId>   // current_assignments
    var meritSums: map<UniId, real>         // uni_merit_sum
    var score: real                         // current_score

    /** The merit sums and the running score are those recomputed from the
        current assignment. */
    ghost predicate Valid()
      reads this
    {
      && WellFormed(inst)
      && Placement(inst, students, assignment)
      && MeritSumsAgree(inst, students, assignment, meritSums)
      && score == Score(inst, students, assignment)
    }

    /** Setup: group the seed's merit by university, then score it. */
    constructor (inst: Instance, students: seq<StudentId>, seed: map<StudentId, UniId>)
      requires WellFormed(inst) && Placement(inst, students, seed)
      ensures Valid()
      ensures this.inst == inst && this.students == students
      ensures assignment == seed
      ensures score == Score(inst, students, seed)
    {
      var sums := GroupMeritSums(inst, students, seed);
      GroupMeritSumsAgree(inst, students, seed);
      var initial := InitialScore(inst, students, seed, sums);
      this.inst := inst;
      this.students := students;
      assignment := seed;
      meritSums := sums;
      score := initial;
    }

    /** Take the swap of s1 and s2: exchange their universities, move their
        merit between the two universities' sums, and add the delta to the
        running score. */
    method Accept(s1: StudentId, s2: StudentId, delta: real)
      requires Valid()
      requires s1 in assignment && s2 in assignment && assignment[s1] != assignment[s2]
      requires delta == SwapDelta(inst, assignment, s1, s2)
      modifies this
      ensures Valid()
      ensures assignment == Swap(old(assignment), s1, s2)
      ensures meritSums == ShiftMerit(inst, old(meritSums), old(assignment), s1, s2)
      ensures score == old(score) + delta
      ensures forall u :: HeadCount(assignment, u) == HeadCount(old(assignment), u)
    {
      var u1, u2 := assignment[s1], assignment[s2];
      var fu1, fu2 := inst.merit[s1], inst.merit[s2];
      AcceptedSwap(inst, students, assignment, meritSums, s1, s2);
      var a, sums := assignment, meritSums;
      a := a[s1 := u2];
      a := a[s2 := u1];
      sums := sums[u1 := sums[u1] - fu1 + fu2];
      sums := sums[u2 := sums[u2] - fu2 + fu1];
      assert a == Swap(assignment, s1, s2);
      assert sums == ShiftMerit(inst, meritSums, assignment, s1, s2);
      assignment, meritSums, score := a, sums, score + delta;
    }

    /** One iteration of the greedy loop: skip two students at the same
        university, otherwise take the swap exactly when it strictly
        improves the score. */
    method GreedyStep(p: Proposal) returns (improved: bool)
      requires Valid()
      requires p.s1 != p.s2 && p.s1 in assignment && p.s2 in assignment
      modifies this
      ensures Valid()
      ensures improved <==>
        old(assignment)[p.s1] != old(assignment)[p.s2] && SwapDelta(inst, old(assignment), p.s1, p.s2) > 0.0
      ensures assignment == GreedyNext(inst, old(assignment), p)
      ensures improved ==> assignment == Swap(old(assignment), p.s1, p.s2)
      ensures improved ==> score == old(score) + SwapDelta(inst, old(assignment), p.s1, p.s2) > old(score)
      ensures !improved ==> unchanged(this)
      ensures forall u :: HeadCount(assignment, u) == HeadCount(old(assignment), u)
    {
      var u1, u2 := assignment[p.s1], assignment[p.s2];
      if u1 == u2 {
        return false;
      }
      var delta := SwapDelta(inst, assignment, p.s1, p.s2);
      if Greedy(delta) == Improve {
        Accept(p.s1, p.s2, delta);
        return true;
      }
      return false;
    }

    /** One iteration of the annealing loop: skip two students at the same
        university, otherwise decide by the Metropolis rule at the
        temperature read `elapsed` seconds into the search and take the
        swap unless it is rejected. */
    method AnnealStep(p: Proposal, elapsed: real, draw: real, exp: real -> ExpOutcome) returns (outcome: StepOutcome)
      requires Valid()
      requires p.s1 != p.s2 && p.s1 in assignment && p.s2 in assignment
      modifies this
      ensures Valid()
      ensures outcome == Skipped <==> old(assignment)[p.s1] == old(assignment)[p.s2]
      ensures outcome.Decided? ==>
        outcome.decision == Metropolis(SwapDelta(inst, old(assignment), p.s1, p.s2), elapsed, draw, exp)
      ensures assignment == AnnealNext(inst, old(assignment), p, elapsed, draw, exp)
      ensures outcome == Skipped || outcome == Decided(Reject) ==> unchanged(this)
      ensures (outcome == Decided(Improve) || outcome == Decided(AcceptWorse)) <==> assignment != old(assignment)
      ensures outcome == Decided(Improve) || outcome == Decided(AcceptWorse) ==>
        && assignment == Swap(old(assignment), p.s1, p.s2)
        && score == old(score) + SwapDelta(inst, old(assignment), p.s1, p.s2)
      ensures outcome == Decided(Improve) ==> score > old(score)
      ensures outcome == Decided(AcceptWorse) ==> score <= old(score)
      ensures forall u :: HeadCount(assignment, u) == HeadCount(old(assignment), u)
    {
      var u1, u2 := assignment[p.s1], assignment[p.s2];
      if u1 == u2 {
        return Skipped;
      }
      var delta := SwapDelta(inst, assignment, p.s1, p.s2);
      var decision := Metropolis(delta, elapsed, draw, exp);
      if decision != Reject {
        Accept(p.s1, p.s2, delta);
      }
      return Decided(decision);
    }
  }
}

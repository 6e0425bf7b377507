/** The simulated-annealing loop: like the greedy loop, but a worsening swap
    is taken when the random draw falls below exp(delta / T), and the best
    assignment seen so far is kept apart from the current one. */
module Annealing {
  import opened Objective
  import opened Moves
  import opened Acceptance
  import opened Search

  /** One iteration's inputs: the proposed pair, the seconds elapsed when the
      temperature is read, and the value of random.random(). */
  datatype Step = Step(proposal: Proposal, elapsed: real, draw: real)

  /** The first |visited| - 1 annealing iterations: each leaves the current
      assignment `AnnealNext` gives for its step, and `bestTrace` is the best
      `score` seen: each entry is at least the score of the assignment at
      that point, entries never go down, and an entry that changes is the
      score reached at that point. */
  ghost predicate AnnealWalk(inst: Instance, exp: real -> ExpOutcome,
                             steps: seq<Step>, visited: seq<map<StudentId, UniId>>, bestTrace: seq<real>,
                             score: map<StudentId, UniId> -> real)
    requires WellFormed(inst)
  {
    && |visited| == |bestTrace| && 1 <= |visited| <= |steps| + 1
    && (forall k :: 0 <= k < |visited| - 1 ==>
          visited[k + 1] == AnnealNext(inst, visited[k], steps[k].proposal, steps[k].elapsed, steps[k].draw, exp))
    && (forall k :: 0 <= k < |visited| ==> score(visited[k]) <= bestTrace[k])
    && (forall k :: 0 <= k < |visited| - 1 ==> bestTrace[k] <= bestTrace[k + 1])
    && (forall k :: 0 <= k < |visited| - 1 ==>
          bestTrace[k + 1] != bestTrace[k] ==> bestTrace[k + 1] == score(visited[k + 1]))
  }

  /** How many steps of a walk raised the `score`. */
  ghost function RiseCount(visited: seq<map<StudentId, UniId>>, score: map<StudentId, UniId> -> real): (n: nat)
    ensures n <= MoveCount(visited)
  {
    if |visited| <= 1 then 0
    else
      var init := visited[..|visited| - 1];
      RiseCount(init, score) + (if score(visited[|visited| - 1]) > score(visited[|visited| - 2]) then 1 else 0)
  }

  /** One more step adds one to the count exactly when it raised the score. */
  lemma RiseCountAppend(visited: seq<map<StudentId, UniId>>, score: map<StudentId, UniId> -> real, a: map<StudentId, UniId>)
    requires visited != []
    ensures RiseCount(visited + [a], score)
         == RiseCount(visited, score) + (if score(a) > score(visited[|visited| - 1]) then 1 else 0)
  {
    var v := visited + [a];
    assert v[..|v| - 1] == visited;
    assert v[|v| - 1] == a && v[|v| - 2] == visited[|visited| - 1];
  }

  /** One more annealing iteration extends the walk. */
  lemma AnnealWalkAppend(inst: Instance, exp: real -> ExpOutcome,
                         steps: seq<Step>, visited: seq<map<StudentId, UniId>>, bestTrace: seq<real>,
                         score: map<StudentId, UniId> -> real,
                         a: map<StudentId, UniId>, x: real)
    requires WellFormed(inst) && AnnealWalk(inst, exp, steps, visited, bestTrace, score) && |visited| <= |steps|
    requires var k, step := |visited| - 1, steps[|visited| - 1];
      a == AnnealNext(inst, visited[k], step.proposal, step.elapsed, step.draw, exp)
    requires score(a) <= x
    requires bestTrace[|bestTrace| - 1] <= x
    requires x != bestTrace[|bestTrace| - 1] ==> x == score(a)
    ensures AnnealWalk(inst, exp, steps, visited + [a], bestTrace + [x], score)
  {
  }

  /** The best score at any point of the walk is at least the score of
      every assignment visited up to that point, and so the best trace
      never decreases between any two points. */
  lemma {:induction false} AnnealWalkBestSoFar(inst: Instance, exp: real -> ExpOutcome,
                                                steps: seq<Step>, visited: seq<map<StudentId, UniId>>, bestTrace: seq<real>,
                                                score: map<StudentId, UniId> -> real)
    requires WellFormed(inst) && AnnealWalk(inst, exp, steps, visited, bestTrace, score)
    ensures forall j, k :: 0 <= j <= k < |visited| ==> score(visited[j]) <= bestTrace[k]
    ensures NonDecreasing(bestTrace)
  {
    var n := |visited| - 1;
    if n > 0 {
      AnnealWalkBestSoFar(inst, exp, steps, visited[..n], bestTrace[..n], score);
      forall j, k | 0 <= j <= k < |visited|
        ensures score(visited[j]) <= bestTrace[k] && bestTrace[j] <= bestTrace[k]
      {
        if k == n && j < n {
          assert visited[..n][j] == visited[j] && bestTrace[..n][j] == bestTrace[j];
          assert bestTrace[..n][n - 1] == bestTrace[n - 1];
        }
      }
    }
  }

  /** Every assignment an annealing walk from a valid placement visits is a
      valid placement with the head counts of the first. */
  lemma {:induction false} AnnealWalkPlacements(inst: Instance, students: seq<StudentId>, exp: real -> ExpOutcome,
                                                 steps: seq<Step>, visited: seq<map<StudentId, UniId>>, bestTrace: seq<real>,
                                                 score: map<StudentId, UniId> -> real)
    requires WellFormed(inst) && AnnealWalk(inst, exp, steps, visited, bestTrace, score)
    requires Placement(inst, students, visited[0])
    requires forall k :: 0 <= k < |steps| ==> ValidProposal(students, steps[k].proposal)
    ensures forall k :: 0 <= k < |visited| ==> Placement(inst, students, visited[k])
    ensures forall k, u :: 0 <= k < |visited| ==> HeadCount(visited[k], u) == HeadCount(visited[0], u)
  {
    var n := |visited| - 1;
    if n > 0 {
      AnnealWalkPlacements(inst, students, exp, steps, visited[..n], bestTrace[..n], score);
      assert visited[..n][n - 1] == visited[n - 1] && visited[..n][0] == visited[0];
      var step := steps[n - 1];
      AnnealNextKeepsPlacement(inst, students, visited[n - 1], step.proposal, step.elapsed, step.draw, exp);
      forall k | 0 <= k < n
        ensures Placement(inst, students, visited[k])
        ensures forall u :: HeadCount(visited[k], u) == HeadCount(visited[0], u)
      {
        assert visited[..n][k] == visited[k];
      }
    }
  }

  /** For the objective itself: the best score at every point is at least
      the score recomputed for every assignment visited up to there, and
      when it changes it is the score recomputed for the assignment just
      reached. */
  lemma AnnealWalkScores(inst: Instance, students: seq<StudentId>, exp: real -> ExpOutcome,
                         steps: seq<Step>, visited: seq<map<StudentId, UniId>>, bestTrace: seq<real>)
    requires WellFormed(inst) && AnnealWalk(inst, exp, steps, visited, bestTrace, ScoreOf(inst, students))
    ensures forall j, k :: 0 <= j <= k < |visited| ==> Score(inst, students, visited[j]) <= bestTrace[k]
    ensures forall k :: 0 <= k < |visited| - 1 ==>
              bestTrace[k + 1] != bestTrace[k] ==> bestTrace[k + 1] == Score(inst, students, visited[k + 1])
  {
    AnnealWalkBestSoFar(inst, exp, steps, visited, bestTrace, ScoreOf(inst, students));
  }

  /** What the annealing loop keeps after |visited| - 1 iterations from
      visited[0]: the walk ends at the current assignment and at the best
      score, the best assignment is the one visited at `bestAt` and has the
      best score, the improvements are the steps that raised the score, and
      with the worsening moves taken they are the steps that moved. */
  ghost predicate AnnealProgress(inst: Instance, exp: real -> ExpOutcome, steps: seq<Step>, score: map<StudentId, UniId> -> real,
                                 visited: seq<map<StudentId, UniId>>, bestTrace: seq<real>, current: map<StudentId, UniId>,
                                 best: map<StudentId, UniId>, bestScore: real, bestAt: nat,
                                 improvements: nat, worseAccepted: nat)
    requires WellFormed(inst)
  {
    && AnnealWalk(inst, exp, steps, visited, bestTrace, score)
    && visited[|visited| - 1] == current && bestTrace[|visited| - 1] == bestScore
    && bestAt < |visited| && best == visited[bestAt] && bestScore == score(best)
    && improvements == RiseCount(visited, score)
    && improvements + worseAccepted == MoveCount(visited)
    && (improvements == 0 ==> best == visited[0])
    && (improvements == 0 && worseAccepted == 0 ==> current == visited[0])
  }

  /** The best is the first visited assignment to reach the best score: no
      visited assignment scores above it, and every one visited before it
      scores strictly below. */
  ghost predicate BestFirst(visited: seq<map<StudentId, UniId>>, score: map<StudentId, UniId> -> real,
                            bestScore: real, bestAt: nat)
  {
    && bestAt < |visited|
    && (forall j :: 0 <= j < |visited| ==> score(visited[j]) <= bestScore)
    && (forall j :: 0 <= j < bestAt ==> score(visited[j]) < bestScore)
  }

  /** One more assignment keeps the best the first to reach the best score,
      when it becomes the best only by scoring strictly above it and
      otherwise scores no higher than the best or than the assignment
      before it. */
  lemma BestFirstAppend(visited: seq<map<StudentId, UniId>>, score: map<StudentId, UniId> -> real,
                        bestScore: real, bestAt: nat, next: map<StudentId, UniId>, improve: bool,
                        bestScore': real, bestAt': nat)
    requires BestFirst(visited, score, bestScore, bestAt)
    requires improve ==> bestScore < score(next)
    requires !improve ==> score(next) <= bestScore || score(next) <= score(visited[|visited| - 1])
    requires bestScore' == (if improve then score(next) else bestScore)
    requires bestAt' == (if improve then |visited| else bestAt)
    ensures BestFirst(visited + [next], score, bestScore', bestAt')
  {
    var v := visited + [next];
    forall j | 0 <= j < |v|
      ensures score(v[j]) <= bestScore'
    {
      if j < |visited| {
        assert v[j] == visited[j];
      }
    }
    forall j | 0 <= j < bestAt'
      ensures score(v[j]) < bestScore'
    {
      assert v[j] == visited[j];
    }
  }

  /** One more iteration keeps the loop's progress: the step the state took
      is appended to the walk, an improvement above the best score becomes
      the best, and the counts grow by the kind of move taken. */
  lemma AnnealProgressAppend(inst: Instance, exp: real -> ExpOutcome, steps: seq<Step>, score: map<StudentId, UniId> -> real,
                             visited: seq<map<StudentId, UniId>>, bestTrace: seq<real>, current: map<StudentId, UniId>,
                             best: map<StudentId, UniId>, bestScore: real, bestAt: nat,
                             improvements: nat, worseAccepted: nat,
                             step: Step, currentScore: real, outcome: StepOutcome, next: map<StudentId, UniId>, nextScore: real,
                             visited': seq<map<StudentId, UniId>>, bestTrace': seq<real>,
                             best': map<StudentId, UniId>, bestScore': real, bestAt': nat,
                             improvements': nat, worseAccepted': nat)
    requires WellFormed(inst) && |visited| <= |steps|
    requires AnnealProgress(inst, exp, steps, score, visited, bestTrace, current, best, bestScore, bestAt, improvements, worseAccepted)
    requires step == steps[|visited| - 1] && next == AnnealNext(inst, current, step.proposal, step.elapsed, step.draw, exp)
    requires currentScore == score(current) && nextScore == score(next)
    requires (outcome == Decided(Improve) || outcome == Decided(AcceptWorse)) <==> next != current
    requires outcome == Decided(Improve) ==> nextScore > currentScore
    requires outcome == Decided(AcceptWorse) ==> nextScore <= currentScore
    requires var improve := outcome == Decided(Improve) && nextScore > bestScore;
      && best' == (if improve then next else best)
      && bestScore' == (if improve then nextScore else bestScore)
      && bestAt' == (if improve then |visited| else bestAt)
    requires improvements' == improvements + if outcome == Decided(Improve) then 1 else 0
    requires worseAccepted' == worseAccepted + if outcome == Decided(AcceptWorse) then 1 else 0
    requires visited' == visited + [next] && bestTrace' == bestTrace + [bestScore']
    ensures AnnealProgress(inst, exp, steps, score, visited', bestTrace', next, best', bestScore', bestAt', improvements', worseAccepted')
  {
    AnnealWalkAppend(inst, exp, steps, visited, bestTrace, score, next, bestScore');
    MoveCountAppend(visited, next);
    RiseCountAppend(visited, score, next);
    assert visited'[0] == visited[0];
    if bestAt' == bestAt {
      assert visited'[bestAt] == visited[bestAt];
    }
  }

  /** The bookkeeping after one iteration, on values: after an improvement
      that beats the best score the new assignment becomes the best, the
      count of the kind of move taken grows by one, and the new assignment
      and the best score are appended to the walk. */
  method AnnealRecord(inst: Instance, exp: real -> ExpOutcome, steps: seq<Step>, ghost score: map<StudentId, UniId> -> real,
                      ghost visited: seq<map<StudentId, UniId>>, ghost bestTrace: seq<real>, ghost current: map<StudentId, UniId>,
                      best: map<StudentId, UniId>, bestScore: real, ghost bestAt: nat,
                      improvements: nat, worseAccepted: nat,
                      step: Step, ghost currentScore: real, outcome: StepOutcome, next: map<StudentId, UniId>, nextScore: real)
    returns (best': map<StudentId, UniId>, bestScore': real, improvements': nat, worseAccepted': nat,
             ghost visited': seq<map<StudentId, UniId>>, ghost bestTrace': seq<real>, ghost bestAt': nat)
    requires WellFormed(inst) && |visited| <= |steps|
    requires AnnealProgress(inst, exp, steps, score, visited, bestTrace, current, best, bestScore, bestAt, improvements, worseAccepted)
    requires step == steps[|visited| - 1] && next == AnnealNext(inst, current, step.proposal, step.elapsed, step.draw, exp)
    requires currentScore == score(current) && nextScore == score(next)
    requires (outcome == Decided(Improve) || outcome == Decided(AcceptWorse)) <==> next != current
    requires outcome == Decided(Improve) ==> nextScore > currentScore
    requires outcome == Decided(AcceptWorse) ==> nextScore <= currentScore
    requires BestFirst(visited, score, bestScore, bestAt)
    ensures best' == if outcome == Decided(Improve) && nextScore > bestScore then next else best
    ensures bestScore' == if outcome == Decided(Improve) && nextScore > bestScore then nextScore else bestScore
    ensures improvements' == improvements + if outcome == Decided(Improve) then 1 else 0
    ensures worseAccepted' == worseAccepted + if outcome == Decided(AcceptWorse) then 1 else 0
    ensures visited' == visited + [next] && bestTrace' == bestTrace + [bestScore']
    ensures AnnealProgress(inst, exp, steps, score, visited', bestTrace', next, best', bestScore', bestAt', improvements', worseAccepted')
    ensures BestFirst(visited', score, bestScore', bestAt')
  {
    best', bestScore', bestAt' := best, bestScore, bestAt;
    if outcome == Decided(Improve) && nextScore > bestScore {
      best', bestScore', bestAt' := next, nextScore, |visited|;
    }
    improvements' := improvements + if outcome == Decided(Improve) then 1 else 0;
    worseAccepted' := worseAccepted + if outcome == Decided(AcceptWorse) then 1 else 0;
    visited', bestTrace' := visited + [next], bestTrace + [bestScore'];
    AnnealProgressAppend(inst, exp, steps, score, visited, bestTrace, current, best, bestScore, bestAt,
                         improvements, worseAccepted, step, currentScore, outcome, next, nextScore,
                         visited', bestTrace', best', bestScore', bestAt', improvements', worseAccepted');
    BestFirstAppend(visited, score, bestScore, bestAt, next, outcome == Decided(Improve) && nextScore > bestScore,
                    bestScore', bestAt');
  }

  /** One iteration of the annealing loop: the step on the state, then,
      after an improvement that beats the best score, the snapshot of the
      current assignment as the new best, and the count of the kind of move
      taken; the current assignment and the best score are appended to the
      walk. */
  method AnnealIteration(state: SearchState, steps: seq<Step>, i: nat, exp: real -> ExpOutcome,
                         best: map<StudentId, UniId>, bestScore: real, improvements: nat, worseAccepted: nat,
                         ghost score: map<StudentId, UniId> -> real,
                         ghost visited: seq<map<StudentId, UniId>>, ghost bestTrace: seq<real>, ghost bestAt: nat)
    returns (outcome: StepOutcome, best': map<StudentId, UniId>, bestScore': real, improvements': nat, worseAccepted': nat,
             ghost visited': seq<map<StudentId, UniId>>, ghost bestTrace': seq<real>, ghost bestAt': nat)
    requires state.Valid() && IsScore(state.inst, state.students, score)
    requires |visited| == i + 1 && i < |steps| && ValidProposal(state.students, steps[i].proposal)
    requires AnnealProgress(state.inst, exp, steps, score, visited, bestTrace, state.assignment,
                            best, bestScore, bestAt, improvements, worseAccepted)
    requires BestFirst(visited, score, bestScore, bestAt)
    modifies state
    ensures state.Valid()
    ensures var p := steps[i].proposal;
      outcome == Skipped <==> old(state.assignment)[p.s1] == old(state.assignment)[p.s2]
    ensures var step := steps[i];
      outcome.Decided? ==>
        outcome.decision == Metropolis(SwapDelta(state.inst, old(state.assignment), step.proposal.s1, step.proposal.s2),
                                       step.elapsed, step.draw, exp)
    ensures best' == if outcome == Decided(Improve) && state.score > bestScore then state.assignment else best
    ensures bestScore' == if outcome == Decided(Improve) && state.score > bestScore then state.score else bestScore
    ensures improvements' == improvements + if outcome == Decided(Improve) then 1 else 0
    ensures worseAccepted' == worseAccepted + if outcome == Decided(AcceptWorse) then 1 else 0
    ensures visited' == visited + [state.assignment] && bestTrace' == bestTrace + [bestScore']
    ensures AnnealProgress(state.inst, exp, steps, score, visited', bestTrace', state.assignment,
                           best', bestScore', bestAt', improvements', worseAccepted')
    ensures BestFirst(visited', score, bestScore', bestAt')
  {
    var step := steps[i];
    ghost var current, currentScore := state.assignment, state.score;
    outcome := state.AnnealStep(step.proposal, step.elapsed, step.draw, exp);
    best', bestScore', improvements', worseAccepted', visited', bestTrace', bestAt' :=
      AnnealRecord(state.inst, exp, steps, score, visited, bestTrace, current, best, bestScore, bestAt,
                   improvements, worseAccepted, step, currentScore, outcome, state.assignment, state.score);
  }

  /** The annealing loop run on a state over the given steps, with `exp`
      standing for math.exp. Returns the best assignment and its score and
      the counts of improvements and of worsening moves taken. `visited`
      holds the current assignment before the first and after every
      iteration, `bestTrace` the best score at the same points, and
      `bestAt` the point at which the best assignment was visited. */
  method AnnealLoop(state: SearchState, steps: seq<Step>, exp: real -> ExpOutcome, ghost score: map<StudentId, UniId> -> real)
    returns (best: map<StudentId, UniId>, bestScore: real, improvements: nat, worseAccepted: nat,
             ghost visited: seq<map<StudentId, UniId>>, ghost bestTrace: seq<real>, ghost bestAt: nat)
    requires state.Valid() && IsScore(state.inst, state.students, score)
    requires forall k :: 0 <= k < |steps| ==> ValidProposal(state.students, steps[k].proposal)
    modifies state
    ensures state.Valid()
    ensures Placement(state.inst, state.students, best) && bestScore == score(best)
    ensures old(state.score) <= bestScore && state.score <= bestScore
    ensures improvements + worseAccepted <= |steps|
    ensures improvements == RiseCount(visited, score) && improvements + worseAccepted == MoveCount(visited)
    ensures improvements == 0 ==> best == old(state.assignment)
    ensures improvements == 0 && worseAccepted == 0 ==> state.assignment == old(state.assignment)
    ensures forall u :: HeadCount(best, u) == HeadCount(old(state.assignment), u)
    ensures forall u :: HeadCount(state.assignment, u) == HeadCount(old(state.assignment), u)
    ensures |visited| == |bestTrace| == |steps| + 1
    ensures visited[0] == old(state.assignment) && visited[|steps|] == state.assignment
    ensures bestTrace[0] == old(state.score) && bestTrace[|steps|] == bestScore
    ensures bestAt <= |steps| && best == visited[bestAt]
    ensures forall j :: 0 <= j < bestAt ==> score(visited[j]) < bestScore
    ensures AnnealWalk(state.inst, exp, steps, visited, bestTrace, score)
  {
    ghost var seed, seedScore := state.assignment, state.score;
    best, bestScore := state.assignment, state.score;
    improvements, worseAccepted := 0, 0;
    visited, bestTrace, bestAt := [seed], [seedScore], 0;
    var i := 0;
    while i < |steps|
      invariant 0 <= i <= |steps|
      invariant state.Valid()
      invariant AnnealProgress(state.inst, exp, steps, score, visited, bestTrace, state.assignment,
                               best, bestScore, bestAt, improvements, worseAccepted)
      invariant |visited| == i + 1 && visited[0] == seed && bestTrace[0] == seedScore
      invariant BestFirst(visited, score, bestScore, bestAt)
    {
      var outcome;
      outcome, best, bestScore, improvements, worseAccepted, visited, bestTrace, bestAt :=
        AnnealIteration(state, steps, i, exp, best, bestScore, improvements, worseAccepted, score, visited, bestTrace, bestAt);
      i := i + 1;
    }
    AnnealWalkBestSoFar(state.inst, exp, steps, visited, bestTrace, score);
    AnnealWalkPlacements(state.inst, state.students, exp, steps, visited, bestTrace, score);
  }

  /** Runs the annealing loop over the given steps from the seed assignment,
      with `exp` standing for math.exp. Returns the best assignment and its
      score, the current assignment and its running score, and the counts
      of improvements and of worsening moves taken, with the walk of
      `AnnealLoop`. */
  method Anneal(inst: Instance, students: seq<StudentId>, seed: map<StudentId, UniId>, steps: seq<Step>, exp: real -> ExpOutcome)
    returns (best: map<StudentId, UniId>, bestScore: real, current: map<StudentId, UniId>, currentScore: real,
             improvements: nat, worseAccepted: nat,
             ghost visited: seq<map<StudentId, UniId>>, ghost bestTrace: seq<real>, ghost bestAt: nat)
    requires WellFormed(inst) && Placement(inst, students, seed)
    requires forall k :: 0 <= k < |steps| ==> ValidProposal(students, steps[k].proposal)
    ensures Placement(inst, students, best) && Placement(inst, students, current)
    ensures bestScore == Score(inst, students, best)
    ensures currentScore == Score(inst, students, current)
    ensures bestScore >= Score(inst, students, seed)
    ensures currentScore <= bestScore
    ensures improvements + worseAccepted <= |steps|
    ensures improvements == RiseCount(visited, ScoreOf(inst, students))
    ensures improvements + worseAccepted == MoveCount(visited)
    ensures improvements == 0 ==> best == seed
    ensures improvements == 0 && worseAccepted == 0 ==> current == seed
    ensures forall u :: HeadCount(best, u) == HeadCount(seed, u) && HeadCount(current, u) == HeadCount(seed, u)
    ensures |visited| == |bestTrace| == |steps| + 1
    ensures visited[0] == seed && visited[|steps|] == current
    ensures bestTrace[0] == Score(inst, students, seed) && bestTrace[|steps|] == bestScore
    ensures bestAt <= |steps| && best == visited[bestAt]
    ensures forall j :: 0 <= j < bestAt ==> Score(inst, students, visited[j]) < bestScore
    ensures AnnealWalk(inst, exp, steps, visited, bestTrace, ScoreOf(inst, students))
    ensures forall j, k :: 0 <= j <= k <= |steps| ==> Score(inst, students, visited[j]) <= bestTrace[k]
    ensures forall k :: 0 <= k < |steps| ==>
              bestTrace[k + 1] != bestTrace[k] ==> bestTrace[k + 1] == Score(inst, students, visited[k + 1])
  {
    var state := new SearchState(inst, students, seed);
    best, bestScore, improvements, worseAccepted, visited, bestTrace, bestAt :=
      AnnealLoop(state, steps, exp, ScoreOf(inst, students));
    current, currentScore := state.assignment, state.score;
    AnnealWalkScores(inst, students, exp, steps, visited, bestTrace);
  }

  /** Three students and two universities (capacities 1 and 2): student 1
      ranks university 1 first but sits at university 2, student 2 ranks
      university 2 first but sits at university 1, student 3 sits at
      university 2 and ranks nothing. Their merit ranks are 1, 2 and 3, so
      their FU are 3/3, 2/3 and 1/3. */
  function ScenarioInstance(): Instance {
    Instance(3, 2,
      map[(1, 1) := 1, (2, 2) := 1],
      map[1 := 1.0, 2 := 2.0 / 3.0, 3 := 1.0 / 3.0],
      map[1 := 1, 2 := 2],
      [1, 2])
  }

  function ScenarioSeed(): map<StudentId, UniId> {
    map[1 := 2, 2 := 1, 3 := 2]
  }

  /** The scenario is a valid instance and seed. */
  lemma ScenarioValid()
    ensures WellFormed(ScenarioInstance())
    ensures Placement(ScenarioInstance(), [1, 2, 3], ScenarioSeed())
    ensures ScenarioInstance().merit[1] == MeritUtility(3, 1)
    ensures ScenarioInstance().merit[2] == MeritUtility(3, 2)
    ensures ScenarioInstance().merit[3] == MeritUtility(3, 3)
  {
  }

  /** Exchanging students 1 and 2 of the scenario moves the score by 25/24:
      both students gain 3 in FE, and the merit side gains 1/6 before the
      1 / U factor (university 2 loses 1/6, university 1 gains 1/3). So
      both decision rules return Improve, and both searches take the swap
      when it is proposed first. */
  lemma ScenarioSwapImproves(elapsed: real, draw: real, exp: real -> ExpOutcome)
    ensures WellFormed(ScenarioInstance()) && Movable(ScenarioInstance(), ScenarioSeed(), 1, 2)
    ensures SwapDelta(ScenarioInstance(), ScenarioSeed(), 1, 2) == 25.0 / 24.0
    ensures Greedy(SwapDelta(ScenarioInstance(), ScenarioSeed(), 1, 2)) == Improve
    ensures Metropolis(SwapDelta(ScenarioInstance(), ScenarioSeed(), 1, 2), elapsed, draw, exp) == Improve
    ensures GreedyNext(ScenarioInstance(), ScenarioSeed(), Proposal(1, 2)) == Swap(ScenarioSeed(), 1, 2)
    ensures AnnealNext(ScenarioInstance(), ScenarioSeed(), Proposal(1, 2), elapsed, draw, exp) == Swap(ScenarioSeed(), 1, 2)
  {
    ScenarioValid();
    var inst, a := ScenarioInstance(), ScenarioSeed();
    assert HappinessGain(inst, a, 1, 2) == 6.0;
    assert FpeDelta(inst, 6.0) == 2.0;
    assert CapShare(inst, 2, 2.0 / 3.0 - 1.0) == -1.0 / 6.0;
    assert CapShare(inst, 1, 1.0 - 2.0 / 3.0) == 1.0 / 3.0;
    assert WeightedMeritGain(inst, a, 1, 2) == 1.0 / 6.0;
  }
}

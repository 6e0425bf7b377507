/** The greedy search loop: propose a swap of two distinct students, skip it
    when both sit at the same university, take it only when the score
    strictly improves. */
module HillClimbing {
  import opened Objective
  import opened Moves
  import opened Search

  /** The first |visited| - 1 greedy iterations: `trace` holds the `score`
      of every assignment reached, each iteration leaves the assignment
      `GreedyNext` gives for its proposal, a change of assignment raises
      the score strictly, and the score never goes down. */
  ghost predicate ClimbWalk(inst: Instance, proposals: seq<Proposal>, visited: seq<map<StudentId, UniId>>, trace: seq<real>,
                            score: map<StudentId, UniId> -> real)
    requires WellFormed(inst)
  {
    && |visited| == |trace| && 1 <= |visited| <= |proposals| + 1
    && (forall k :: 0 <= k < |visited| ==> trace[k] == score(visited[k]))
    && (forall k :: 0 <= k < |visited| - 1 ==> visited[k + 1] == GreedyNext(inst, visited[k], proposals[k]))
    && (forall k :: 0 <= k < |visited| - 1 ==> visited[k + 1] != visited[k] ==> trace[k] < trace[k + 1])
    && NonDecreasing(trace)
  }

  /** One more greedy iteration extends the walk. */
  lemma ClimbWalkAppend(inst: Instance, proposals: seq<Proposal>, visited: seq<map<StudentId, UniId>>, trace: seq<real>,
                        score: map<StudentId, UniId> -> real,
                        a: map<StudentId, UniId>, x: real)
    requires WellFormed(inst) && ClimbWalk(inst, proposals, visited, trace, score) && |visited| <= |proposals|
    requires a == GreedyNext(inst, visited[|visited| - 1], proposals[|visited| - 1])
    requires x == score(a)
    requires trace[|trace| - 1] <= x
    requires a != visited[|visited| - 1] ==> trace[|trace| - 1] < x
    ensures ClimbWalk(inst, proposals, visited + [a], trace + [x], score)
  {
    NonDecreasingAppend(trace, x);
  }

  /** One iteration of the greedy loop, recorded: the step on the state,
      with the assignment and running score it leaves appended to the walk. */
  method ClimbIteration(state: SearchState, proposals: seq<Proposal>, i: nat, ghost score: map<StudentId, UniId> -> real,
                        ghost visited: seq<map<StudentId, UniId>>, ghost trace: seq<real>)
    returns (improved: bool, ghost visited': seq<map<StudentId, UniId>>, ghost trace': seq<real>)
    requires state.Valid() && IsScore(state.inst, state.students, score)
    requires ClimbWalk(state.inst, proposals, visited, trace, score)
    requires |visited| == i + 1 && i < |proposals| && ValidProposal(state.students, proposals[i])
    requires visited[i] == state.assignment
    modifies state
    ensures state.Valid()
    ensures improved <==>
      && old(state.assignment)[proposals[i].s1] != old(state.assignment)[proposals[i].s2]
      && SwapDelta(state.inst, old(state.assignment), proposals[i].s1, proposals[i].s2) > 0.0
    ensures improved ==> state.score > old(state.score)
    ensures !improved ==> state.assignment == old(state.assignment)
    ensures forall u :: HeadCount(state.assignment, u) == HeadCount(old(state.assignment), u)
    ensures visited' == visited + [state.assignment] && trace' == trace + [state.score]
    ensures visited'[0] == visited[0]
    ensures MoveCount(visited') == MoveCount(visited) + if improved then 1 else 0
    ensures ClimbWalk(state.inst, proposals, visited', trace', score)
  {
    improved := state.GreedyStep(proposals[i]);
    ClimbWalkAppend(state.inst, proposals, visited, trace, score, state.assignment, state.score);
    MoveCountAppend(visited, state.assignment);
    visited', trace' := visited + [state.assignment], trace + [state.score];
  }

  /** The greedy loop run on a state over the given proposals. Returns the
      number of improvements taken. `visited` holds the assignment before
      the first and after every iteration, and `trace` the running score at
      the same points. */
  method ClimbLoop(state: SearchState, proposals: seq<Proposal>, ghost score: map<StudentId, UniId> -> real)
    returns (improvements: nat, ghost visited: seq<map<StudentId, UniId>>, ghost trace: seq<real>)
    requires state.Valid() && IsScore(state.inst, state.students, score)
    requires forall k :: 0 <= k < |proposals| ==> ValidProposal(state.students, proposals[k])
    modifies state
    ensures state.Valid()
    ensures improvements <= |proposals|
    ensures improvements == MoveCount(visited)
    ensures improvements == 0 ==> state.assignment == old(state.assignment)
    ensures improvements > 0 ==> state.score > old(state.score)
    ensures forall u :: HeadCount(state.assignment, u) == HeadCount(old(state.assignment), u)
    ensures |visited| == |proposals| + 1
    ensures visited[0] == old(state.assignment) && visited[|proposals|] == state.assignment
    ensures ClimbWalk(state.inst, proposals, visited, trace, score)
  {
    ghost var seed, seedScore := state.assignment, state.score;
    improvements := 0;
    visited, trace := [seed], [seedScore];
    var i := 0;
    while i < |proposals|
      invariant 0 <= i <= |proposals|
      invariant state.Valid()
      invariant improvements <= i
      invariant improvements == MoveCount(visited)
      invariant improvements == 0 ==> state.assignment == seed
      invariant improvements > 0 ==> state.score > seedScore
      invariant forall u :: HeadCount(state.assignment, u) == HeadCount(seed, u)
      invariant |visited| == i + 1
      invariant visited[0] == seed && visited[i] == state.assignment
      invariant ClimbWalk(state.inst, proposals, visited, trace, score)
    {
      var improved;
      improved, visited, trace := ClimbIteration(state, proposals, i, score, visited, trace);
      improvements := improvements + if improved then 1 else 0;
      i := i + 1;
    }
  }

  /** Runs the greedy loop over the given proposals, starting from the seed
      assignment. Returns the final assignment, its running score and the
      number of improvements taken, with the walk of `ClimbLoop`. */
  method HillClimb(inst: Instance, students: seq<StudentId>, seed: map<StudentId, UniId>, proposals: seq<Proposal>)
    returns (assignment: map<StudentId, UniId>, score: real, improvements: nat,
             ghost visited: seq<map<StudentId, UniId>>, ghost trace: seq<real>)
    requires WellFormed(inst) && Placement(inst, students, seed)
    requires forall k :: 0 <= k < |proposals| ==> ValidProposal(students, proposals[k])
    ensures Placement(inst, students, assignment)
    ensures score == Score(inst, students, assignment)
    ensures score >= Score(inst, students, seed)
    ensures improvements <= |proposals|
    ensures improvements == MoveCount(visited)
    ensures improvements == 0 ==> assignment == seed
    ensures improvements > 0 ==> score > Score(inst, students, seed)
    ensures forall u :: HeadCount(assignment, u) == HeadCount(seed, u)
    ensures |visited| == |trace| == |proposals| + 1
    ensures visited[0] == seed && visited[|proposals|] == assignment
    ensures ClimbWalk(inst, proposals, visited, trace, ScoreOf(inst, students))
    ensures forall k :: 0 <= k <= |proposals| ==> trace[k] == Score(inst, students, visited[k])
  {
    var state := new SearchState(inst, students, seed);
    improvements, visited, trace := ClimbLoop(state, proposals, ScoreOf(inst, students));
    assignment, score := state.assignment, state.score;
  }
}

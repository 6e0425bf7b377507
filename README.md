# Swap-based local search for student-to-university assignment

This project models the search engine of two Python scripts. Both start
from a seed assignment of students to universities and improve it by
exchanging the universities of two students at a time:

- `CodeFinal.py` is greedy hill climbing. It keeps a swap only when the
  score strictly improves.
- `SA_EvitaOptimosLocales.py` is simulated annealing. It always keeps an
  improvement. It keeps a worsening swap when a uniform draw falls below
  `exp(delta / T)` under a linear cooling schedule. It also keeps the best
  assignment seen so far.

The score of an assignment is `ALPHA * FPE + (1 - ALPHA) * FPU`:
- FPE is the mean happiness FE of the students. FE is `(51 - p) / 50` for a
  university the student ranked p, and `-2` for one they did not rank.
- FPU is `(1 / U)` times the sum, over the capacity table, of `1 / cap_u`
  times the merit utility FU placed at u, where `FU = (N + 1 - merit_rank) / N`.

Both scripts keep three pieces of state and update them in place on every
accepted swap: the assignment, a per-university merit sum, and a running
score. The score is never recomputed; each swap adds an O(1) delta to it.

The model is split into six modules:
- `Objective` (objective.dfy): FE, FU and the score recomputed from
  scratch. It also holds the merit aggregate and the initial-score loop.
- `Moves` (moves.dfy): the swap and its delta. The central result,
  `DeltaCorrect`, says the score recomputed after a swap equals the score
  before plus the delta.
- `Acceptance` (acceptance.dfy): the greedy and Metropolis decisions and
  the cooling schedule.
- `Search` (search_state.dfy): the class `SearchState`, holding the three
  mutable fields and one method per loop iteration.
- `HillClimbing` (hill_climbing.dfy) and `Annealing` (annealing.dfy): the
  two loops, each driven by a sequence of proposals.

Scores are exact `real` numbers, so delta correctness holds exactly rather
than up to float rounding. Randomness, the clock and `math.exp` are inputs:
- each iteration receives its proposed pair of students;
- the annealing iteration also receives the seconds elapsed and the value
  of `random.random()`;
- `math.exp` is a function parameter returning a value or an overflow.

A non-positive temperature is replaced by the constant `1e-10`, not floored
at it (SA_EvitaOptimosLocales.py:165-166). In the last 3.6 seconds before the
deadline the linear schedule is therefore below that constant.
`Acceptance.FloorAboveScheduleNearDeadline` states this.

Each search method also returns, as ghost outputs, the walk it took:
- `visited[k]` is the assignment after k proposals;
- step k leads from `visited[k]` to `Search.GreedyNext` (greedy) or
  `Search.AnnealNext` (annealing) of that step's inputs. These functions
  state the decision rule on values: swap when the universities differ and
  the delta is positive (greedy), or when the Metropolis rule does not
  reject (annealing); stay otherwise.
The greedy walk carries the recomputed score of every assignment it
visited. The annealing walk carries the best score held after every step.
Each such best score is at least the recomputed score of every assignment
visited so far. It changes only when it becomes the score of the assignment
just reached.

The counters are tied to the walk. `improvements_found` is the number of
steps that changed the assignment (`Moves.MoveCount`). In the annealing loop
it is the number of steps that raised the score (`Annealing.RiseCount`), and
`worse_moves_accepted` is the number of the other moves. The annealing loop
also returns a ghost index `bestAt`: the best assignment is `visited[bestAt]`.
It is replaced only by an improvement whose score is strictly above the
best score, as the `>` of SA_EvitaOptimosLocales.py:149 demands. So it is the
first visited assignment to reach the best score: every assignment visited
before it scores strictly less.

## Model

| member | source | states |
|---|---|---|
| Objective.Happiness | SA_EvitaOptimosLocales.py:71-73 | FE is in (0, 1] for a rank in 1..50, is 1 for a first choice, and is the -2 penalty when the rank is missing or 0 (the same rule as CodeFinal.py:64-66) |
| Objective.PreferenceOrder | SA_EvitaOptimosLocales.py:71-73 | a university ranked earlier gives strictly more happiness, and any ranked university beats an unranked one |
| Objective.MeritUtility | SA_EvitaOptimosLocales.py:53 | FU is in (0, 1] for ranks 1..N, is 1 for rank 1, and is 1/N for rank N |
| Objective.MeritOrder | SA_EvitaOptimosLocales.py:53 | a better (smaller) merit rank gives strictly larger FU |
| Objective.MeritIndex | SA_EvitaOptimosLocales.py:53-54 | the merit map has exactly the merit list's students, each with their FU, which is in (0, 1] for ranks 1..N |
| Objective.TotalHappiness | SA_EvitaOptimosLocales.py:76 | no contract of its own: the FE summed over the placed students; `Moves.TotalHappinessSwap` and `Objective.InitialScore` state its meaning |
| Objective.Fpe | SA_EvitaOptimosLocales.py:77 | no contract of its own: the FE total over N; `Moves.FpeAfterSwap` and `Moves.DeltaCorrect` state its meaning |
| Objective.Fpu | SA_EvitaOptimosLocales.py:80-84 | no contract of its own: (1 / U) times the weighted merit; `Objective.WeightedMeritSum` and `Moves.FpuAfterSwap` state its meaning |
| Objective.Score | SA_EvitaOptimosLocales.py:88 | no contract of its own: the score recomputed from scratch; `Objective.InitialScore` and `Moves.DeltaCorrect` state its meaning |
| Objective.SumOrZero | SA_EvitaOptimosLocales.py:82 | no contract of its own: the aggregate lookup with default 0; `Objective.GroupMeritSums` and `Moves.MeritSumsAfterSwap` state its meaning |
| Objective.GroupMeritSums | SA_EvitaOptimosLocales.py:67-68 | grouping by university gives one entry per occupied university, and every lookup with default 0 is the true FU sum there |
| Objective.GroupMeritSumsAgree | CodeFinal.py:60-61 | the grouped sums of the seed agree with it: keys are the occupied universities and every value is the recomputed merit sum |
| Objective.WeightedMeritStep | SA_EvitaOptimosLocales.py:81-83 | one pass of the FPU loop adds (1 / cap_u) times the aggregate entry (0 when absent), which is u's term of the recomputed weighted merit |
| Objective.WeightedMeritSum | SA_EvitaOptimosLocales.py:80-83 | the loop over the capacity table computes the weighted merit of any assignment that the aggregate agrees with |
| Objective.InitialScore | SA_EvitaOptimosLocales.py:75-88 | the initial score computed from the merit aggregate equals the score recomputed from scratch (likewise CodeFinal.py:68-80) |
| Moves.ValidProposal | SA_EvitaOptimosLocales.py:110 | no contract of its own: what `random.sample(student_ids, 2)` yields, two distinct listed students; every search method requires it of its proposals |
| Moves.Swap | SA_EvitaOptimosLocales.py:140-141 | s1 gets u2, s2 gets u1, the keys are kept, and no other student changes |
| Moves.SwapInvolutive | SA_EvitaOptimosLocales.py:140-141 | swapping the same pair again restores the assignment |
| Moves.SwapKeepsPlacement | CodeFinal.py:136-137 | the swapped assignment still places exactly the listed students, each with a merit entry and a university with a capacity |
| Moves.SameUniversityIsNoOp | SA_EvitaOptimosLocales.py:114-115 | for two students at the same university the swap changes nothing and its delta is 0, so skipping it loses nothing |
| Moves.HeadCountSwap | SA_EvitaOptimosLocales.py:179-180 | every university keeps its head count after a swap |
| Moves.OccupiedSwap | SA_EvitaOptimosLocales.py:145-146 | a swap does not change which universities are occupied, so both aggregate keys exist |
| Moves.HappinessGain | SA_EvitaOptimosLocales.py:118-122 | no contract of its own: the FE gain of the two students; `Moves.TotalHappinessSwap` and `Moves.DeltaCorrect` state its meaning |
| Moves.WeightedMeritGain | SA_EvitaOptimosLocales.py:124-127 | no contract of its own: delta_fpu_u1 + delta_fpu_u2; `Moves.WeightedMeritSwap` and `Moves.DeltaCorrect` state its meaning |
| Moves.FpeDelta | SA_EvitaOptimosLocales.py:122 | no contract of its own: delta_fpe; `Moves.FpeAfterSwap` and `Moves.DeltaCorrect` state its meaning |
| Moves.FpuDelta | SA_EvitaOptimosLocales.py:128 | no contract of its own: delta_fpu; `Moves.FpuAfterSwap` and `Moves.DeltaCorrect` state its meaning |
| Moves.SwapDelta | SA_EvitaOptimosLocales.py:130 | no contract of its own: delta_score; `Moves.DeltaCorrect` states its meaning (the same delta as CodeFinal.py:128) |
| Moves.ShiftMerit | SA_EvitaOptimosLocales.py:145-146 | no contract of its own: the two-entry aggregate update; `Moves.MeritSumsAfterSwap` states its meaning |
| Moves.TotalHappinessSwap | SA_EvitaOptimosLocales.py:118-122 | the FE total after the swap is the total before plus the new FE of both students minus their old FE |
| Moves.MeritAtSwap | SA_EvitaOptimosLocales.py:124-127 | u1's merit sum gains fu_s2 - fu_s1, u2's gains fu_s1 - fu_s2, and every other university's is unchanged |
| Moves.WeightedMeritSwap | SA_EvitaOptimosLocales.py:126-128 | the recomputed weighted merit moves by exactly delta_fpu_u1 + delta_fpu_u2 |
| Moves.FpeAfterSwap | SA_EvitaOptimosLocales.py:122 | the recomputed FPE after the swap is FPE before plus delta_fpe |
| Moves.FpuAfterSwap | SA_EvitaOptimosLocales.py:128 | the recomputed FPU after the swap is FPU before plus delta_fpu |
| Moves.DeltaCorrect | SA_EvitaOptimosLocales.py:118-130 | for students at different universities, the score recomputed after the swap equals the score before plus delta_score (the same delta as CodeFinal.py:105-128) |
| Moves.DeltaAntisymmetric | SA_EvitaOptimosLocales.py:118-130 | swapping the pair back has exactly the opposite delta |
| Moves.MeritSumsAfterSwap | SA_EvitaOptimosLocales.py:145-146 | the two-entry aggregate update keeps the aggregate equal to the recomputed merit sums of the swapped assignment (likewise CodeFinal.py:143-144) |
| Moves.AcceptedSwap | SA_EvitaOptimosLocales.py:140-146 | an accepted swap keeps the placement valid and the aggregate in agreement, moves the score by exactly the delta, and keeps every head count |
| Acceptance.Temperature | SA_EvitaOptimosLocales.py:161-166 | T is always positive and at most T_INITIAL; before the limit it is T_INITIAL * (1 - elapsed / limit), and from the limit on it is 1e-10 |
| Acceptance.CoolingWithinLimit | SA_EvitaOptimosLocales.py:161-162 | within the time limit a later reading is never warmer |
| Acceptance.FloorAboveScheduleNearDeadline | SA_EvitaOptimosLocales.py:161-166 | for every reading strictly between 3596.4 seconds and the limit, T is below the 1e-10 used from the limit on, so the constant replaces the schedule rather than flooring it |
| Acceptance.AcceptanceProbability | SA_EvitaOptimosLocales.py:169-172 | for a worsening or neutral move (delta <= 0), and an exp that maps non-positive inputs into [0, 1] with exp(0) = 1, the result is a probability in [0, 1]; it is 0 when exp overflows, and the value exp returns otherwise |
| Acceptance.NonPositiveQuotient | SA_EvitaOptimosLocales.py:170 | a non-positive delta over a positive temperature gives a non-positive exponent |
| Acceptance.NoOverflowOnWorseningMove | SA_EvitaOptimosLocales.py:169-172 | at every temperature the schedule produces, a worsening move never reaches the OverflowError branch, and its acceptance probability is exp(delta / T) itself, in [0, 1] |
| Acceptance.Metropolis | SA_EvitaOptimosLocales.py:134-176 | Improve iff delta > 0; AcceptWorse iff delta <= 0 and the draw is below the probability; overflow with a draw >= 0 rejects |
| Acceptance.Greedy | CodeFinal.py:131 | Improve iff delta > 0, and never AcceptWorse |
| Acceptance.GreedyWithinMetropolis | CodeFinal.py:131 | every swap greedy takes, annealing takes as an improvement, and a swap annealing rejects is one greedy rejects |
| Acceptance.NeutralMoveAccepted | SA_EvitaOptimosLocales.py:170-176 | a zero delta has probability exp(0) = 1, so it is accepted for every draw in [0, 1) |
| Search.SearchState.constructor | SA_EvitaOptimosLocales.py:63-88 | the initial state holds the seed, an aggregate that agrees with it, and its recomputed score |
| Search.SearchState.Accept | SA_EvitaOptimosLocales.py:140-146 | the new assignment is the swap, the new aggregate is the two-entry update, the score moves by delta, and the state stays valid (the same update as CodeFinal.py:136-144) |
| Search.GreedyNext | CodeFinal.py:96-137 | no contract of its own: the assignment one greedy iteration leaves; `Search.GreedyNextImproves` and `Search.SearchState.GreedyStep` state its meaning |
| Search.AnnealNext | SA_EvitaOptimosLocales.py:111-180 | no contract of its own: the assignment one annealing iteration leaves; `Search.AnnealNextWorsening`, `Search.AnnealNextKeepsPlacement` and `Search.SearchState.AnnealStep` state its meaning |
| Search.GreedyNextImproves | CodeFinal.py:131-140 | a greedy iteration keeps the placement valid and never lowers the recomputed score, and when it moves the score rises strictly |
| Search.AnnealNextWorsening | SA_EvitaOptimosLocales.py:154-181 | an annealing iteration keeps the placement valid, and a move it makes without raising the recomputed score is one whose draw fell below the acceptance probability at the temperature of that moment |
| Search.AnnealNextKeepsPlacement | SA_EvitaOptimosLocales.py:140-146 | an annealing iteration keeps the placement valid and every university's head count (likewise lines 179-185) |
| Search.GreedyNextWithinAnneal | SA_EvitaOptimosLocales.py:134-142 | every move greedy makes (CodeFinal.py:131) annealing makes too, to the same assignment, whatever the temperature and the draw |
| Search.SearchState.GreedyStep | CodeFinal.py:95-144 | a swap is taken iff the universities differ and the delta is positive; the new assignment is `GreedyNext` of the old one; after a swap the score grows strictly by delta; otherwise nothing changes |
| Search.SearchState.AnnealStep | SA_EvitaOptimosLocales.py:110-185 | skipped iff both are at one university; otherwise the Metropolis decision; the new assignment is `AnnealNext` of the old one, and it differs from the old one exactly on Improve or AcceptWorse, which move the score by delta, up on Improve and not up on AcceptWorse |
| Moves.MoveCount | CodeFinal.py:133 | the number of steps of a walk that changed the assignment is at most the number of steps |
| Moves.MoveCountAppend | CodeFinal.py:133 | one more step adds one to the count exactly when it changed the assignment |
| HillClimbing.ClimbWalkAppend | CodeFinal.py:131-140 | extending a greedy walk by the `GreedyNext` of the next proposal, whose score is the new assignment's and is no lower (strictly higher when it moved), gives a greedy walk |
| HillClimbing.ClimbIteration | CodeFinal.py:95-144 | one greedy iteration keeps the state valid, improves iff the universities differ and the delta is positive, then raises the score strictly and otherwise leaves the assignment unchanged, adds one to the move count exactly when it improved, and extends the walk by the new assignment and its recomputed score |
| HillClimbing.ClimbLoop | CodeFinal.py:88-147 | after the loop the walk starts at the seed and ends at the final assignment, every step is the `GreedyNext` of its proposal, the trace gives every visited assignment's recomputed score, never decreases, and rises strictly at every step that moved, and `improvements_found` is the number of steps that moved |
| HillClimbing.HillClimb | CodeFinal.py:88-147 | the final running score is the recomputed score of a valid placement with the seed's head counts; it never falls below the seed's and is strictly above it once anything was improved; every step of the walk from the seed to the final assignment is the `GreedyNext` of its proposal; its trace is the recomputed score of each visited assignment and never decreases; `improvements_found` is the number of steps that moved |
| Annealing.RiseCount | SA_EvitaOptimosLocales.py:137 | the number of steps of a walk that raised the score is at most the number of steps that changed the assignment |
| Annealing.RiseCountAppend | SA_EvitaOptimosLocales.py:137 | one more step adds one to the count exactly when it raised the score |
| Annealing.AnnealWalkAppend | SA_EvitaOptimosLocales.py:149-151 | extending an annealing walk by the `AnnealNext` of the next step, with a best score no lower than before and than the new assignment's score, and changed only to that score, gives an annealing walk |
| Annealing.AnnealWalkPlacements | SA_EvitaOptimosLocales.py:140-146 | every assignment an annealing walk from a valid placement visits is a valid placement with the seed's head counts (likewise lines 179-185) |
| Annealing.AnnealProgressAppend | SA_EvitaOptimosLocales.py:134-185 | one more iteration keeps the loop's progress: the walk extended by `AnnealNext`, the best being the visited assignment at `bestAt` with the best score, improvements counting the rises and both counters together counting the moves |
| Annealing.BestFirstAppend | SA_EvitaOptimosLocales.py:149-151 | a new assignment that becomes the best only by scoring strictly above the best score keeps the best the first visited assignment to reach the best score, with no visited assignment above it |
| Annealing.AnnealRecord | SA_EvitaOptimosLocales.py:137-151 | the best assignment and score are replaced exactly on an improvement strictly above the best score, `improvements_found` grows by one exactly on Improve and `worse_moves_accepted` exactly on AcceptWorse (line 176), and the loop's progress is kept, with the best the first visited assignment to reach the best score |
| Annealing.AnnealWalkBestSoFar | SA_EvitaOptimosLocales.py:149-151 | along an annealing walk the best score after step k is at least the score of every assignment visited up to k, and the best scores never decrease |
| Annealing.AnnealWalkScores | SA_EvitaOptimosLocales.py:149-151 | the same two facts about the recomputed score: every best score bounds all earlier visited scores, and a change of best score is the recomputed score of the assignment just reached |
| Annealing.AnnealIteration | SA_EvitaOptimosLocales.py:110-185 | one annealing iteration keeps the state valid, is skipped iff both students are at one university and otherwise gives the Metropolis decision on the delta, replaces the best only on an improvement strictly above the best score, counts Improve and AcceptWorse, extends the walk by the `AnnealNext` of its step, and keeps the best the first visited assignment to reach the best score |
| Annealing.AnnealLoop | SA_EvitaOptimosLocales.py:102-185 | after the loop the best score is the score of the best assignment, which is the visited assignment at `bestAt`, every assignment visited before it scoring strictly less, and bounds the seed's and the current score; every step of the walk is the `AnnealNext` of its inputs; the best-score trace bounds every visited score; `improvements_found` counts the rises and both counters together the moves |
| Annealing.Anneal | SA_EvitaOptimosLocales.py:102-185 | the best score equals the recomputed score of the best assignment, which is the first visited assignment to reach that score, and is at least the seed's and the current score; both assignments keep the seed's head counts; every step of the walk from the seed to the current assignment is the `AnnealNext` of its inputs; the best score after step k bounds the recomputed score of every assignment visited up to k, never decreases, and changes only to the score of the assignment just reached; `improvements_found` counts the steps that raised the score and, with `worse_moves_accepted`, the steps that moved |
| Annealing.ScenarioValid | SA_EvitaOptimosLocales.py:53 | the three-student example is a valid instance, with FU equal to the utility of ranks 1, 2 and 3 |
| Annealing.ScenarioSwapImproves | SA_EvitaOptimosLocales.py:134 | in the three-student example the swap of students 1 and 2 has delta 25/24, both decision rules return Improve, and both `GreedyNext` and `AnnealNext` of that proposal are the swap |

## Left out

- Loading and reshaping the CSV tables with pandas (`read_csv`, `melt`,
  `groupby`, `to_dict`) is not modelled. The preference-rank, merit and
  capacity lookups are given maps, and N and U are given counts.
- The merit map `Instance.merit` is taken as given. `Objective.MeritIndex`
  states how the scripts build it from the merit list
  (SA_EvitaOptimosLocales.py:53-54), but no instance is required to hold it.
- Writing the result CSV and sorting by student id is file output.
- The wall-clock loop bound, the progress prints, `KeyboardInterrupt` and
  the `iteration` counter are not modelled. A loop ends when its input
  sequence of proposals ends.
- `random.sample` is replaced by a given sequence of proposals, each two
  distinct listed students. `random.random()` is a given draw per step.
- `math.exp` is a given function. It is constrained, by
  `Acceptance.ExpOnNonPositive`, only where a contract says so.
- The `OverflowError` branch (SA_EvitaOptimosLocales.py:171-172) is modelled,
  but it is unreachable: the probability is only computed for delta <= 0, and
  `Acceptance.NoOverflowOnWorseningMove` shows that exp does not overflow there.
- With fewer than 2 students, `random.sample(student_ids, 2)` raises an
  uncaught `ValueError` (SA_EvitaOptimosLocales.py:110, CodeFinal.py:95).
  The model requires every proposal to be two distinct listed students, so
  with fewer than 2 students only the empty proposal sequence exists, and the
  search returns the seed instead of failing.
- Floats are modelled as exact reals, so rounding in the running score is
  not captured.
- The scripts divide by N, U and the capacities. The model requires N and U
  to be positive and the capacities to be non-zero.
- Two prints are cosmetic and not modelled: the final print of
  `FPE_inicial + FPU_inicial` without ALPHA (CodeFinal.py:161), and the
  progress print's use of `current_temp` before any worsening move has set
  it (SA_EvitaOptimosLocales.py:189).
- Annealing.Anneal: the best snapshot is a copy of a map value, so the
  aliasing that `.copy()` guards against is not modelled.

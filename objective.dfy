/** The objective of the student-to-university assignment search: per-student
    happiness (FE), merit utility (FU), the two population averages FPE and FPU,
    the weighted score, and the per-university merit aggregate the search keeps
    beside the assignment. */
module Objective {

  type StudentId = int
  type UniId = int

  /** Weight of the student side of the score (ALPHA in both search scripts). */
  const ALPHA: real := 0.5
  /** Happiness of a student placed at a university they did not rank. */
  const UNRANKED_PENALTY: real := -2.0
  /** Number of preference columns, pref_1 .. pref_50. */
  const PREFERENCE_SLOTS: int := 50

  /** The lookups the search reads, precomputed once from the input tables. */
  datatype Instance = Instance(
    studentCount: int,                      // N, rows of the student table
    universityCount: int,                   // U, rows of the university table
    prefRank: map<(StudentId, UniId), int>, // preference rank p of (student, university)
    merit: map<StudentId, real>,            // merit utility FU of each student
    cap: map<UniId, int>,                   // seat capacity of each university
    universities: seq<UniId>)               // the capacity table in iteration order

  predicate NoDup<T(==)>(s: seq<T>) {
    forall i, j :: 0 <= i < j < |s| ==> s[i] != s[j]
  }

  /** What the scoring needs of its tables to divide without error: N, U and
      every capacity are non-zero, and `universities` lists the capacity
      table's keys once each. */
  ghost predicate WellFormed(inst: Instance) {
    && inst.studentCount > 0
    && inst.universityCount > 0
    && NoDup(inst.universities)
    && (forall k :: 0 <= k < |inst.universities| ==> inst.universities[k] in inst.cap && inst.cap[inst.universities[k]] != 0)
    && (forall u :: u in inst.cap ==> u in inst.universities)
    && (forall u :: u in inst.cap ==> inst.cap[u] != 0)
  }

  /** `a` maps exactly the students of the list `students` (the keys of the
      seed assignment, each once), every placed student has a merit entry
      and every occupied university has a capacity. */
  ghost predicate Placement(inst: Instance, students: seq<StudentId>, a: map<StudentId, UniId>) {
    && NoDup(students)
    && (forall s :: s in a <==> s in students)
    && (forall s :: s in a ==> s in inst.merit && a[s] in inst.cap)
  }

  /** get_fe_i: (51 - p) / 50 for a university ranked p by the student, the
      penalty -2 when the rank is missing (or the falsy 0). */
  function Happiness(inst: Instance, s: StudentId, u: UniId): (fe: real)
    ensures (s, u) in inst.prefRank && 1 <= inst.prefRank[(s, u)] <= PREFERENCE_SLOTS ==> 0.0 < fe <= 1.0
    ensures (s, u) in inst.prefRank && inst.prefRank[(s, u)] == 1 ==> fe == 1.0
    ensures ((s, u) !in inst.prefRank || inst.prefRank[(s, u)] == 0) ==> fe == UNRANKED_PENALTY
  {
    if (s, u) in inst.prefRank && inst.prefRank[(s, u)] != 0 then
      (PREFERENCE_SLOTS + 1 - inst.prefRank[(s, u)]) as real / PREFERENCE_SLOTS as real
    else
      UNRANKED_PENALTY
  }

  /** A university the student ranks earlier makes them happier, and any ranked
      university beats an unranked one. */
  lemma PreferenceOrder(inst: Instance, s: StudentId, u: UniId, v: UniId)
    requires (s, u) in inst.prefRank && 1 <= inst.prefRank[(s, u)] <= PREFERENCE_SLOTS
    ensures (s, v) in inst.prefRank && 1 <= inst.prefRank[(s, v)] && inst.prefRank[(s, u)] < inst.prefRank[(s, v)]
            ==> Happiness(inst, s, u) > Happiness(inst, s, v)
    ensures (s, v) !in inst.prefRank ==> Happiness(inst, s, u) > Happiness(inst, s, v)
  {
  }

  /** FU_i = (N + 1 - merit_rank) / N. */
  function MeritUtility(n: int, meritRank: int): (fu: real)
    requires n > 0
    ensures 1 <= meritRank <= n ==> 0.0 < fu <= 1.0
    ensures meritRank == 1 ==> fu == 1.0
    ensures meritRank == n ==> fu * n as real == 1.0
  {
    (n + 1 - meritRank) as real / n as real
  }

  /** A better (smaller) merit rank gives a strictly larger utility. */
  lemma MeritOrder(n: int, r1: int, r2: int)
    requires n > 0 && r1 < r2
    ensures MeritUtility(n, r1) > MeritUtility(n, r2)
  {
    DivideStrict((n + 1 - r1) as real, (n + 1 - r2) as real, n as real);
  }

  /** Dividing by a positive number keeps a strict order. */
  lemma DivideStrict(x: real, y: real, d: real)
    requires d > 0.0 && x > y
    ensures x / d > y / d
  {
    assert x / d - y / d == (x - y) / d;
  }

  /** student_merit_map: the merit utility of every student of the merit list. */
  function MeritIndex(n: int, meritRank: map<StudentId, int>): (m: map<StudentId, real>)
    requires n > 0
    ensures m.Keys == meritRank.Keys
    ensures forall s :: s in m ==> m[s] == MeritUtility(n, meritRank[s])
    ensures forall s :: s in m && 1 <= meritRank[s] <= n ==> 0.0 < m[s] <= 1.0
  {
    map s | s in meritRank :: MeritUtility(n, meritRank[s])
  }

  // ----- sums over a list of ids -----

  /** f summed over the ids of `xs`, in list order. */
  function SumOver(xs: seq<int>, f: int -> real): real {
    if xs == [] then 0.0 else SumOver(xs[..|xs| - 1], f) + f(xs[|xs| - 1])
  }

  /** Changing the summand at two ids only changes the sum by the two
      differences, each counted once when that id is listed. */
  lemma {:induction false} SumOverTwoChanges(xs: seq<int>, f: int -> real, g: int -> real, x1: int, x2: int)
    requires NoDup(xs) && x1 != x2
    requires forall x :: x != x1 && x != x2 ==> g(x) == f(x)
    ensures SumOver(xs, g)
         == SumOver(xs, f) + (if x1 in xs then g(x1) - f(x1) else 0.0) + (if x2 in xs then g(x2) - f(x2) else 0.0)
  {
    if xs != [] {
      var init, x := xs[..|xs| - 1], xs[|xs| - 1];
      assert xs == init + [x];
      LastNotEarlier(xs);
      SumOverTwoChanges(init, f, g, x1, x2);
    }
  }

  lemma LastNotEarlier<T>(s: seq<T>)
    requires NoDup(s) && s != []
    ensures s[|s| - 1] !in s[..|s| - 1]
  {
  }

  // ----- the score recomputed from scratch -----

  /** FE of a student at their placement in `a` (0 for an unplaced id). */
  function PlacedHappiness(inst: Instance, a: map<StudentId, UniId>, s: StudentId): real {
    if s in a then Happiness(inst, s, a[s]) else 0.0
  }

  /** Sum of FE over the listed students at their placements in `a`. */
  function TotalHappiness(inst: Instance, students: seq<StudentId>, a: map<StudentId, UniId>): real {
    SumOver(students, s => PlacedHappiness(inst, a, s))
  }

  /** FU of a student if `a` places them at `u`, otherwise 0. */
  ghost function MeritIfAt(inst: Instance, a: map<StudentId, UniId>, u: UniId, s: StudentId): real {
    if s in a && a[s] == u && s in inst.merit then inst.merit[s] else 0.0
  }

  /** Sum of FU over the listed students placed at `u`. */
  ghost function MeritAt(inst: Instance, students: seq<StudentId>, a: map<StudentId, UniId>, u: UniId): real {
    SumOver(students, s => MeritIfAt(inst, a, u, s))
  }

  /** (1 / cap_u) * x: x weighted by the inverse capacity of u. */
  function CapShare(inst: Instance, u: UniId, x: real): real
    requires u in inst.cap && inst.cap[u] != 0
  {
    (1.0 / inst.cap[u] as real) * x
  }

  /** Weighting by 1 / cap_u distributes over a sum. */
  lemma CapShareAdd(inst: Instance, u: UniId, x: real, d: real)
    requires u in inst.cap && inst.cap[u] != 0
    ensures CapShare(inst, u, x + d) == CapShare(inst, u, x) + CapShare(inst, u, d)
  {
  }

  /** The FPU term of u: (1 / cap_u) times the merit placed at u (0 for a
      university without a capacity). */
  ghost function WeightedAt(inst: Instance, students: seq<StudentId>, a: map<StudentId, UniId>, u: UniId): real {
    if u in inst.cap && inst.cap[u] != 0 then CapShare(inst, u, MeritAt(inst, students, a, u)) else 0.0
  }

  /** The FPU term of every university. */
  ghost function WeightedTerms(inst: Instance, students: seq<StudentId>, a: map<StudentId, UniId>): int -> real {
    u => WeightedAt(inst, students, a, u)
  }

  /** Sum over the capacity table of (1 / cap_u) times the merit placed at u. */
  ghost function WeightedMerit(inst: Instance, students: seq<StudentId>, a: map<StudentId, UniId>): real {
    SumOver(inst.universities, WeightedTerms(inst, students, a))
  }

  /** Moving the merit at u by d moves its FPU term by (1 / cap_u) * d. */
  lemma WeightedAtShift(inst: Instance, students: seq<StudentId>, a: map<StudentId, UniId>, b: map<StudentId, UniId>, u: UniId, d: real)
    requires u in inst.cap && inst.cap[u] != 0
    requires MeritAt(inst, students, b, u) == MeritAt(inst, students, a, u) + d
    ensures WeightedAt(inst, students, b, u) == WeightedAt(inst, students, a, u) + CapShare(inst, u, d)
  {
    CapShareAdd(inst, u, MeritAt(inst, students, a, u), d);
  }

  /** When the FPU terms of two distinct universities of the capacity table
      move by d1 and d2 and no other term moves, the weighted merit moves by
      d1 + d2. */
  lemma WeightedMeritTwoChanges(inst: Instance, students: seq<StudentId>, a: map<StudentId, UniId>, b: map<StudentId, UniId>,
                                u1: UniId, u2: UniId, d1: real, d2: real)
    requires WellFormed(inst) && u1 != u2 && u1 in inst.cap && u2 in inst.cap
    requires forall u :: u != u1 && u != u2 ==> WeightedTerms(inst, students, b)(u) == WeightedTerms(inst, students, a)(u)
    requires WeightedAt(inst, students, b, u1) == WeightedAt(inst, students, a, u1) + d1
    requires WeightedAt(inst, students, b, u2) == WeightedAt(inst, students, a, u2) + d2
    ensures WeightedMerit(inst, students, b) == WeightedMerit(inst, students, a) + (d1 + d2)
  {
    SumOverTwoChanges(inst.universities, WeightedTerms(inst, students, a), WeightedTerms(inst, students, b), u1, u2);
  }

  /** FPE: the mean happiness, over N. */
  ghost function Fpe(inst: Instance, students: seq<StudentId>, a: map<StudentId, UniId>): real
    requires WellFormed(inst)
  {
    TotalHappiness(inst, students, a) / inst.studentCount as real
  }

  /** FPU: (1 / U) times the capacity-weighted merit of every university. */
  ghost function Fpu(inst: Instance, students: seq<StudentId>, a: map<StudentId, UniId>): real
    requires WellFormed(inst)
  {
    (1.0 / inst.universityCount as real) * WeightedMerit(inst, students, a)
  }

  /** The score recomputed from scratch: ALPHA * FPE + (1 - ALPHA) * FPU. */
  ghost function Score(inst: Instance, students: seq<StudentId>, a: map<StudentId, UniId>): real
    requires WellFormed(inst)
  {
    ALPHA * Fpe(inst, students, a) + (1.0 - ALPHA) * Fpu(inst, students, a)
  }

  /** The score recomputed from scratch, as a function of the assignment. */
  ghost function ScoreOf(inst: Instance, students: seq<StudentId>): map<StudentId, UniId> -> real
    requires WellFormed(inst)
  {
    a => Score(inst, students, a)
  }

  /** `score` agrees with the score recomputed from scratch. The trigger is
      the objective itself, so that applying `score` to a new assignment
      does not unfold the objective. */
  ghost predicate IsScore(inst: Instance, students: seq<StudentId>, score: map<StudentId, UniId> -> real)
    requires WellFormed(inst)
  {
    forall a {:trigger Score(inst, students, a)} :: score(a) == Score(inst, students, a)
  }

  /** The students `a` places at `u`. */
  ghost function Heads(a: map<StudentId, UniId>, u: UniId): set<StudentId> {
    set s | s in a && a[s] == u
  }

  /** Head count of `u`: how many students `a` places there. */
  ghost function HeadCount(a: map<StudentId, UniId>, u: UniId): nat {
    |Heads(a, u)|
  }

  // ----- the per-university merit aggregate -----

  /** dict.get(u, 0) */
  function SumOrZero(sums: map<UniId, real>, u: UniId): real {
    if u in sums then sums[u] else 0.0
  }

  /** The running merit aggregate agrees with the assignment: it has an entry
      exactly for the occupied universities, and each lookup with default 0
      is the true merit sum. */
  ghost predicate MeritSumsAgree(inst: Instance, students: seq<StudentId>, a: map<StudentId, UniId>, sums: map<UniId, real>) {
    && sums.Keys == Occupied(a)
    && (forall u :: SumOrZero(sums, u) == MeritAt(inst, students, a, u))
  }

  /** The universities `a` places someone at. */
  ghost function Occupied(a: map<StudentId, UniId>): set<UniId> {
    set s | s in a :: a[s]
  }

  /** The universities the listed students occupy. */
  ghost function PlacedAt(students: seq<StudentId>, a: map<StudentId, UniId>): set<UniId> {
    set s | s in students && s in a :: a[s]
  }

  /** uni_merit_sum as built by grouping the listed students by university
      and summing their FU: one entry per occupied university, holding the
      true merit sum there. */
  function GroupMeritSums(inst: Instance, students: seq<StudentId>, a: map<StudentId, UniId>): (sums: map<UniId, real>)
    requires forall s :: s in students ==> s in a && s in inst.merit
    ensures sums.Keys == PlacedAt(students, a)
    ensures forall u :: SumOrZero(sums, u) == MeritAt(inst, students, a, u)
  {
    if students == [] then map[]
    else
      var init, s := students[..|students| - 1], students[|students| - 1];
      var prev := GroupMeritSums(inst, init, a);
      assert students == init + [s];
      assert PlacedAt(students, a) == PlacedAt(init, a) + {a[s]};
      MeritAtLast(inst, students, a);
      prev[a[s] := SumOrZero(prev, a[s]) + inst.merit[s]]
  }

  /** Peeling the last listed student off every merit sum. */
  lemma MeritAtLast(inst: Instance, students: seq<StudentId>, a: map<StudentId, UniId>)
    requires students != []
    ensures forall u ::
      MeritAt(inst, students, a, u)
      == MeritAt(inst, students[..|students| - 1], a, u) + MeritIfAt(inst, a, u, students[|students| - 1])
  {
  }

  /** The grouped sums of a whole placement agree with it. */
  lemma GroupMeritSumsAgree(inst: Instance, students: seq<StudentId>, a: map<StudentId, UniId>)
    requires Placement(inst, students, a)
    ensures MeritSumsAgree(inst, students, a, GroupMeritSums(inst, students, a))
  {
    var sums := GroupMeritSums(inst, students, a);
    forall u | u in Occupied(a) ensures u in sums {
      var s :| s in a && a[s] == u;
      assert s in students;
    }
  }

  /** The sum over a one-longer prefix adds the next summand. */
  lemma SumOverPrefix(xs: seq<int>, f: int -> real, i: int)
    requires 0 <= i < |xs|
    ensures SumOver(xs[..i + 1], f) == SumOver(xs[..i], f) + f(xs[i])
  {
    assert xs[..i + 1][..i] == xs[..i];
  }

  /** One step of the FPU loop: the next university of the capacity table
      adds (1 / cap_u) times its aggregate entry (0 when absent). */
  lemma WeightedMeritStep(inst: Instance, students: seq<StudentId>, a: map<StudentId, UniId>, sums: map<UniId, real>, i: int)
    requires WellFormed(inst) && MeritSumsAgree(inst, students, a, sums)
    requires 0 <= i < |inst.universities|
    ensures SumOver(inst.universities[..i + 1], WeightedTerms(inst, students, a))
         == SumOver(inst.universities[..i], WeightedTerms(inst, students, a))
            + CapShare(inst, inst.universities[i], SumOrZero(sums, inst.universities[i]))
  {
    SumOverPrefix(inst.universities, WeightedTerms(inst, students, a), i);
    var u := inst.universities[i];
    assert SumOrZero(sums, u) == MeritAt(inst, students, a, u);
  }

  /** total_fpu_component: the loop over the capacity table adding
      (1 / cap_u) * uni_merit_sum.get(u, 0) is the weighted merit of the
      assignment the aggregate agrees with. */
  method WeightedMeritSum(inst: Instance, ghost students: seq<StudentId>, ghost a: map<StudentId, UniId>, sums: map<UniId, real>)
    returns (total: real)
    requires WellFormed(inst)
    requires MeritSumsAgree(inst, students, a, sums)
    ensures total == WeightedMerit(inst, students, a)
  {
    total := 0.0;
    var i := 0;
    while i < |inst.universities|
      invariant 0 <= i <= |inst.universities|
      invariant total == SumOver(inst.universities[..i], WeightedTerms(inst, students, a))
    {
      WeightedMeritStep(inst, students, a, sums, i);
      total := total + CapShare(inst, inst.universities[i], SumOrZero(sums, inst.universities[i]));
      i := i + 1;
    }
    assert inst.universities[..i] == inst.universities;
  }

  /** The initial score: the mean FE, then FPU from the merit aggregate. */
  method InitialScore(inst: Instance, students: seq<StudentId>, a: map<StudentId, UniId>, sums: map<UniId, real>)
    returns (score: real)
    requires WellFormed(inst)
    requires MeritSumsAgree(inst, students, a, sums)
    ensures score == Score(inst, students, a)
  {
    var totalFe := TotalHappiness(inst, students, a);
    var fpe := totalFe / inst.studentCount as real;
    var total := WeightedMeritSum(inst, students, a, sums);
    var fpu := (1.0 / inst.universityCount as real) * total;
    score := ALPHA * fpe + (1.0 - ALPHA) * fpu;
  }
}

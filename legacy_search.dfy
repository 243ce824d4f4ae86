/**
 * The depth-first search of the older solver: `InternalRun` solves the eq goals and
 * then `HandleImplGoals` elects a pending impl goal, builds every candidate for it and
 * runs them in clause order, the first that succeeds being the answer.  The two
 * counters the candidates draw on are process-wide, so they carry from one candidate
 * to the next whether it succeeds or not.  A run is bounded by `fuel`, the number of
 * nested goal expansions it may make.
 */
module LegacySearch {
  import opened Wrappers
  import opened Terms
  import opened Substitution
  import LG = LegacyGoals
  import LegacyEqGoals
  import LegacyRetrieve
  import opened LegacyCandidates
  import opened LegacySolverStates

  /** What a run gives: the solver that solved every goal, `null`, or the fuel ran out first. */
  datatype Outcome = Found(solver: SolverState) | NotFound | OutOfFuel

  /** What every solver of a search is: valid, with well-formed clauses. */
  ghost predicate Searchable(s: SolverState) {
    Valid(s) && ClausesWellFormed(s.clauses)
  }

  /** `InternalRun()`: the eq goals, then the impl goals. */
  function InternalRun(s: SolverState, env: Env, seeds: Seeds, fuel: nat): (Outcome, Seeds)
    requires Searchable(s)
    decreases fuel, 1, 0
  {
    var (t, ok) := LegacyEqGoals.HandleEqGoals(s, env.merge);
    if !ok then (NotFound, seeds)
    else
      LegacyEqGoals.HandleEqGoalsKeeps(s, env.merge);
      HandleImplGoals(t, env, seeds, fuel)
  }

  /** `HandleImplGoals()`: done when no impl goal is elected, else the candidates for the elected one. */
  function HandleImplGoals(s: SolverState, env: Env, seeds: Seeds, fuel: nat): (Outcome, Seeds)
    requires Searchable(s)
    decreases fuel, 0, 1
  {
    match LegacyRetrieve.RetrieveImplGoal(s.implGoals)
    case None => (Found(s), seeds)
    case Some(goal) =>
      if fuel == 0 then (OutOfFuel, seeds)
      else
        ElectedOnChain(s, goal);
        Expand(s, goal, env, seeds, fuel)
  }

  /** The candidates for the elected goal, run in clause order one level deeper. */
  function Expand(s: SolverState, goal: RecImplGoalChain, env: Env, seeds: Seeds, fuel: nat): (Outcome, Seeds)
    requires Searchable(s) && goal.chainId > 0 && fuel > 0
    decreases fuel, 0, 0
  {
    var cands := Candidates(s, goal, env, s.clauses, seeds);
    CandidatesSearchable(s, goal, env, seeds);
    TryEach(cands.0, 0, env, cands.1, fuel - 1)
  }

  /** Every candidate of a solver of the search is one too, on the same clauses. */
  lemma CandidatesSearchable(s: SolverState, goal: RecImplGoalChain, env: Env, seeds: Seeds)
    requires Searchable(s) && goal.chainId > 0
    ensures forall c :: c in Candidates(s, goal, env, s.clauses, seeds).0 ==> Searchable(c) && c.clauses == s.clauses
  {
    CandidatesValid(s, goal, env, s.clauses, seeds);
  }

  /** The `foreach (var candidate in candidates)` loop from candidate `i` on. */
  function TryEach(cands: seq<SolverState>, i: nat, env: Env, seeds: Seeds, fuel: nat): (Outcome, Seeds)
    requires i <= |cands| && forall c :: c in cands ==> Searchable(c)
    decreases fuel, 2, |cands| - i
  {
    if i == |cands| then (NotFound, seeds)
    else
      var r := InternalRun(cands[i], env, seeds, fuel);
      if r.0.NotFound? then TryEach(cands, i + 1, env, r.1, fuel) else r
  }

  /** The elected goal is a pending one, so its chain id is not the `default` one. */
  lemma ElectedOnChain(s: SolverState, goal: RecImplGoalChain)
    requires ChainsPositive(s.implGoals) && LegacyRetrieve.RetrieveImplGoal(s.implGoals) == Some(goal)
    ensures goal.chainId > 0 && goal in s.implGoals
  {
    var i :| 0 <= i < |s.implGoals| && s.implGoals[i] == goal;
  }

  // ------------------------------------------------------------------ what a solution is

  /** A successful `HandleEqGoals` leaves no eq goal. */
  lemma HandleEqGoalsEmpties(s: SolverState, merge: (Bindings, Bindings) -> Bindings)
    ensures var (t, ok) := LegacyEqGoals.HandleEqGoals(s, merge);
      ok ==> t.eqGoals == []
  {
    LegacyEqGoals.DrainEnds(s.eqGoals, s.matched, merge);
  }

  /**
   * The solver a run returns has no goal left of either kind, is valid and has the
   * clauses of the solver it started from.
   */
  lemma {:induction false} RunFoundClean(s: SolverState, env: Env, seeds: Seeds, fuel: nat)
    requires Searchable(s)
    ensures var r := InternalRun(s, env, seeds, fuel).0;
      r.Found? ==> r.solver.eqGoals == [] && r.solver.implGoals == [] && Valid(r.solver) && r.solver.clauses == s.clauses
    decreases fuel, 1, 0
  {
    var (t, ok) := LegacyEqGoals.HandleEqGoals(s, env.merge);
    if ok {
      HandleEqGoalsEmpties(s, env.merge);
      LegacyEqGoals.HandleEqGoalsKeeps(s, env.merge);
      ImplGoalsFoundClean(t, env, seeds, fuel);
    }
  }

  lemma {:induction false} ImplGoalsFoundClean(s: SolverState, env: Env, seeds: Seeds, fuel: nat)
    requires Searchable(s) && s.eqGoals == []
    ensures var r := HandleImplGoals(s, env, seeds, fuel).0;
      r.Found? ==> r.solver.eqGoals == [] && r.solver.implGoals == [] && Valid(r.solver) && r.solver.clauses == s.clauses
    decreases fuel, 0, 1
  {
    match LegacyRetrieve.RetrieveImplGoal(s.implGoals)
    case None =>
      LegacyRetrieve.RetrieveNoneIffEmpty(s.implGoals);
    case Some(goal) =>
      if fuel > 0 {
        ElectedOnChain(s, goal);
        ExpandFoundClean(s, goal, env, seeds, fuel);
      }
  }

  lemma {:induction false} ExpandFoundClean(s: SolverState, goal: RecImplGoalChain, env: Env, seeds: Seeds, fuel: nat)
    requires Searchable(s) && goal.chainId > 0 && fuel > 0
    ensures var r := Expand(s, goal, env, seeds, fuel).0;
      r.Found? ==> r.solver.eqGoals == [] && r.solver.implGoals == [] && Valid(r.solver) && r.solver.clauses == s.clauses
    decreases fuel, 0, 0
  {
    var cands := Candidates(s, goal, env, s.clauses, seeds);
    CandidatesSearchable(s, goal, env, seeds);
    TryEachFoundClean(cands.0, 0, env, cands.1, fuel - 1, s.clauses);
  }

  lemma {:induction false} TryEachFoundClean(cands: seq<SolverState>, i: nat, env: Env, seeds: Seeds, fuel: nat,
                                             clauses: seq<LegacyClauses.Clause>)
    requires i <= |cands| && forall c :: c in cands ==> Searchable(c) && c.clauses == clauses
    ensures var r := TryEach(cands, i, env, seeds, fuel).0;
      r.Found? ==> r.solver.eqGoals == [] && r.solver.implGoals == [] && Valid(r.solver) && r.solver.clauses == clauses
    decreases fuel, 2, |cands| - i
  {
    if i < |cands| {
      var r := InternalRun(cands[i], env, seeds, fuel);
      RunFoundClean(cands[i], env, seeds, fuel);
      if r.0.NotFound? {
        TryEachFoundClean(cands, i + 1, env, r.1, fuel, clauses);
      }
    }
  }

  // ------------------------------------------------------------------ every slot is filled

  /** Some pending impl goal fills slot `n`. */
  ghost predicate Pending(s: SolverState, n: string) {
    exists i :: 0 <= i < |s.implGoals| && s.implGoals[i].goal.resolvesTo == n
  }

  /** Every slot of `names` has an instantiation or a pending goal that will fill it. */
  ghost predicate Accounted(s: SolverState, names: set<string>) {
    forall n :: n in names ==> n in s.instantiations || Pending(s, n)
  }

  /** `HandleEqGoals` keeps every slot accounted for. */
  lemma EqGoalsKeepAccounted(s: SolverState, merge: (Bindings, Bindings) -> Bindings, names: set<string>)
    requires Valid(s) && Accounted(s, names)
    ensures Accounted(LegacyEqGoals.HandleEqGoals(s, merge).0, names)
  {
    var t := LegacyEqGoals.HandleEqGoals(s, merge).0;
    LegacyEqGoals.HandleEqGoalsKeeps(s, merge);
    forall n | n in names && n !in t.instantiations ensures Pending(t, n) {
      var i :| 0 <= i < |s.implGoals| && s.implGoals[i].goal.resolvesTo == n;
      assert t.implGoals[i].goal.resolvesTo == n;
    }
  }

  /** A candidate for a pending goal keeps every slot accounted for: the goal's own slot is now filled. */
  lemma CandidateKeepsAccounted(s: SolverState, goal: RecImplGoalChain, c: SolverState, names: set<string>)
    requires Accounted(s, names)
    requires c.instantiations.Keys == s.instantiations.Keys + {goal.goal.resolvesTo}
    requires forall g :: g in s.implGoals && g != goal ==> g in c.implGoals
    ensures Accounted(c, names)
  {
    forall n | n in names && n !in c.instantiations ensures Pending(c, n) {
      var i :| 0 <= i < |s.implGoals| && s.implGoals[i].goal.resolvesTo == n;
      var g := s.implGoals[i];
      assert g != goal && g in s.implGoals;
      var j :| 0 <= j < |c.implGoals| && c.implGoals[j] == g;
    }
  }

  /** Every candidate for a pending goal keeps every slot accounted for. */
  lemma CandidatesKeepAccounted(s: SolverState, goal: RecImplGoalChain, env: Env, seeds: Seeds, names: set<string>)
    requires Searchable(s) && Accounted(s, names) && goal.chainId > 0
    ensures forall c :: c in Candidates(s, goal, env, s.clauses, seeds).0 ==> Accounted(c, names)
  {
    CandidatesValid(s, goal, env, s.clauses, seeds);
    forall c | c in Candidates(s, goal, env, s.clauses, seeds).0 ensures Accounted(c, names) {
      CandidateKeepsAccounted(s, goal, c, names);
    }
  }

  /** A run that finds a solver has an instantiation for every slot accounted for at its start. */
  lemma {:induction false} RunFillsSlots(s: SolverState, env: Env, seeds: Seeds, fuel: nat, names: set<string>)
    requires Searchable(s) && Accounted(s, names)
    ensures var r := InternalRun(s, env, seeds, fuel).0;
      r.Found? ==> names <= r.solver.instantiations.Keys
    decreases fuel, 1, 0
  {
    var (t, ok) := LegacyEqGoals.HandleEqGoals(s, env.merge);
    if ok {
      LegacyEqGoals.HandleEqGoalsKeeps(s, env.merge);
      EqGoalsKeepAccounted(s, env.merge, names);
      ImplGoalsFillSlots(t, env, seeds, fuel, names);
    }
  }

  lemma {:induction false} ImplGoalsFillSlots(s: SolverState, env: Env, seeds: Seeds, fuel: nat, names: set<string>)
    requires Searchable(s) && Accounted(s, names)
    ensures var r := HandleImplGoals(s, env, seeds, fuel).0;
      r.Found? ==> names <= r.solver.instantiations.Keys
    decreases fuel, 0, 1
  {
    match LegacyRetrieve.RetrieveImplGoal(s.implGoals)
    case None =>
      LegacyRetrieve.RetrieveNoneIffEmpty(s.implGoals);
    case Some(goal) =>
      if fuel > 0 {
        ElectedOnChain(s, goal);
        ExpandFillsSlots(s, goal, env, seeds, fuel, names);
      }
  }

  lemma {:induction false} ExpandFillsSlots(s: SolverState, goal: RecImplGoalChain, env: Env, seeds: Seeds, fuel: nat,
                                            names: set<string>)
    requires Searchable(s) && Accounted(s, names) && goal.chainId > 0 && fuel > 0
    ensures var r := Expand(s, goal, env, seeds, fuel).0;
      r.Found? ==> names <= r.solver.instantiations.Keys
    decreases fuel, 0, 0
  {
    var cands := Candidates(s, goal, env, s.clauses, seeds);
    CandidatesValid(s, goal, env, s.clauses, seeds);
    CandidatesKeepAccounted(s, goal, env, seeds, names);
    TryEachFillsSlots(cands.0, 0, env, cands.1, fuel - 1, names);
  }

  lemma {:induction false} TryEachFillsSlots(cands: seq<SolverState>, i: nat, env: Env, seeds: Seeds, fuel: nat,
                                             names: set<string>)
    requires i <= |cands| && forall c :: c in cands ==> Searchable(c) && Accounted(c, names)
    ensures var r := TryEach(cands, i, env, seeds, fuel).0;
      r.Found? ==> names <= r.solver.instantiations.Keys
    decreases fuel, 2, |cands| - i
  {
    if i < |cands| {
      var r := InternalRun(cands[i], env, seeds, fuel);
      RunFillsSlots(cands[i], env, seeds, fuel, names);
      if r.0.NotFound? {
        TryEachFillsSlots(cands, i + 1, env, r.1, fuel, names);
      }
    }
  }

  // ------------------------------------------------------------------ the bindings only refine

  /** Two terms the bindings make equal. */
  ghost predicate Equated(matched: Option<Bindings>, a: Term, b: Term) {
    matched.Some? && Substitute(a, matched.value) == Substitute(b, matched.value)
  }

  /** With a merge that keeps `a = b`, `HandleEqGoals` keeps it once the bindings make it. */
  lemma EqGoalsRefine(s: SolverState, merge: (Bindings, Bindings) -> Bindings, a: Term, b: Term)
    requires KeepsEquated(merge, a, b) && Equated(s.matched, a, b)
    ensures var (t, ok) := LegacyEqGoals.HandleEqGoals(s, merge);
      ok ==> Equated(t.matched, a, b)
  {
    if s.eqGoals != [] {
      LegacyEqGoals.DrainRefines(s.eqGoals, s.matched.value, merge, a, b);
    }
  }

  /** With a merge that keeps `a = b`, the solver a run finds keeps it once its start made it. */
  lemma {:induction false} RunRefines(s: SolverState, env: Env, seeds: Seeds, fuel: nat, a: Term, b: Term)
    requires Searchable(s) && KeepsEquated(env.merge, a, b) && Equated(s.matched, a, b)
    ensures var r := InternalRun(s, env, seeds, fuel).0;
      r.Found? ==> Equated(r.solver.matched, a, b)
    decreases fuel, 1, 0
  {
    var (t, ok) := LegacyEqGoals.HandleEqGoals(s, env.merge);
    if ok {
      LegacyEqGoals.HandleEqGoalsKeeps(s, env.merge);
      EqGoalsRefine(s, env.merge, a, b);
      ImplGoalsRefine(t, env, seeds, fuel, a, b);
    }
  }

  lemma {:induction false} ImplGoalsRefine(s: SolverState, env: Env, seeds: Seeds, fuel: nat, a: Term, b: Term)
    requires Searchable(s) && KeepsEquated(env.merge, a, b) && Equated(s.matched, a, b)
    ensures var r := HandleImplGoals(s, env, seeds, fuel).0;
      r.Found? ==> Equated(r.solver.matched, a, b)
    decreases fuel, 0, 1
  {
    match LegacyRetrieve.RetrieveImplGoal(s.implGoals)
    case None =>
    case Some(goal) =>
      if fuel > 0 {
        ElectedOnChain(s, goal);
        ExpandRefines(s, goal, env, seeds, fuel, a, b);
      }
  }

  lemma {:induction false} ExpandRefines(s: SolverState, goal: RecImplGoalChain, env: Env, seeds: Seeds, fuel: nat,
                                         a: Term, b: Term)
    requires Searchable(s) && KeepsEquated(env.merge, a, b) && Equated(s.matched, a, b)
    requires goal.chainId > 0 && fuel > 0
    ensures var r := Expand(s, goal, env, seeds, fuel).0;
      r.Found? ==> Equated(r.solver.matched, a, b)
    decreases fuel, 0, 0
  {
    var cands := Candidates(s, goal, env, s.clauses, seeds);
    CandidatesValid(s, goal, env, s.clauses, seeds);
    TryEachRefines(cands.0, 0, env, cands.1, fuel - 1, a, b);
  }

  lemma {:induction false} TryEachRefines(cands: seq<SolverState>, i: nat, env: Env, seeds: Seeds, fuel: nat,
                                          a: Term, b: Term)
    requires i <= |cands| && forall c :: c in cands ==> Searchable(c) && Equated(c.matched, a, b)
    requires KeepsEquated(env.merge, a, b)
    ensures var r := TryEach(cands, i, env, seeds, fuel).0;
      r.Found? ==> Equated(r.solver.matched, a, b)
    decreases fuel, 2, |cands| - i
  {
    if i < |cands| {
      var r := InternalRun(cands[i], env, seeds, fuel);
      RunRefines(cands[i], env, seeds, fuel, a, b);
      if r.0.NotFound? {
        TryEachRefines(cands, i + 1, env, r.1, fuel, a, b);
      }
    }
  }

  // ------------------------------------------------------------------ Run

  /** The slots of the impl goals given to the constructor. */
  function InitialSlots(goals: seq<Goal>): set<string> {
    set g | g in ImplGoalsOf(goals) :: g.resolvesTo
  }

  /** `Run()`: the instantiations and the bindings of the solver found, no bindings reading as the empty match. */
  function Run(goals: seq<Goal>, clauses: seq<LegacyClauses.Clause>, env: Env, seeds: Seeds, fuel: nat)
    : (Outcome, Seeds)
    requires ClausesWellFormed(clauses)
  {
    InitFacts(goals, clauses);
    InternalRun(Init(goals, clauses), env, seeds, fuel)
  }

  /** `solver._match ?? new TermMatch(...)` */
  function Result(s: SolverState): SolverResult {
    SolverResult(s.instantiations, if s.matched.Some? then s.matched.value else map[])
  }

  /** A search from the constructor's solver fills the slot of every impl goal given to it. */
  lemma RunFillsInitialSlots(goals: seq<Goal>, clauses: seq<LegacyClauses.Clause>, env: Env, seeds: Seeds, fuel: nat)
    requires ClausesWellFormed(clauses)
    ensures var r := Run(goals, clauses, env, seeds, fuel).0;
      r.Found? ==> InitialSlots(goals) <= r.solver.instantiations.Keys
  {
    var s := Init(goals, clauses);
    InitFacts(goals, clauses);
    forall n | n in InitialSlots(goals) ensures n in s.instantiations || Pending(s, n) {
      var g :| g in ImplGoalsOf(goals) && g.resolvesTo == n;
      var k :| 0 <= k < |ImplGoalsOf(goals)| && ImplGoalsOf(goals)[k] == g;
      assert s.implGoals[k].goal.resolvesTo == n;
    }
    RunFillsSlots(s, env, seeds, fuel, InitialSlots(goals));
  }

  /** With a merge that composes, the first `HandleEqGoals` equates every eq goal given to the constructor, for good. */
  lemma InitEqGoalsEquated(goals: seq<Goal>, clauses: seq<LegacyClauses.Clause>, merge: (Bindings, Bindings) -> Bindings)
    requires Composes(merge)
    ensures var gs := EqGoalsOf(goals);
      var (t, ok) := LegacyEqGoals.HandleEqGoals(Init(goals, clauses), merge);
      forall i :: 0 <= i < |gs| ==> KeepsEquated(merge, gs[i].left, gs[i].right) && (ok ==> Equated(t.matched, gs[i].left, gs[i].right))
  {
    var s := Init(goals, clauses);
    LegacyEqGoals.HandleEqGoalsSolves(s, merge);
    forall i | 0 <= i < |s.eqGoals| ensures KeepsEquated(merge, s.eqGoals[i].left, s.eqGoals[i].right) {
      ComposesKeepsEquated(merge, s.eqGoals[i].left, s.eqGoals[i].right);
    }
  }

  /** A search from the constructor's solver keeps every equation the first `HandleEqGoals` made. */
  lemma RunKeepsInitEquations(goals: seq<Goal>, clauses: seq<LegacyClauses.Clause>, env: Env, seeds: Seeds, fuel: nat)
    requires ClausesWellFormed(clauses)
    requires var gs := EqGoalsOf(goals);
      var (t, ok) := LegacyEqGoals.HandleEqGoals(Init(goals, clauses), env.merge);
      forall i :: 0 <= i < |gs| ==> KeepsEquated(env.merge, gs[i].left, gs[i].right) && (ok ==> Equated(t.matched, gs[i].left, gs[i].right))
    ensures var r := Run(goals, clauses, env, seeds, fuel).0;
      r.Found? ==> LegacyEqGoals.Solved(EqGoalsOf(goals), Result(r.solver).matched)
  {
    var s := Init(goals, clauses);
    InitFacts(goals, clauses);
    var r := InternalRun(s, env, seeds, fuel).0;
    var (t, ok) := LegacyEqGoals.HandleEqGoals(s, env.merge);
    if ok {
      LegacyEqGoals.HandleEqGoalsKeeps(s, env.merge);
      forall i | 0 <= i < |s.eqGoals|
        ensures r.Found? ==> Substitute(s.eqGoals[i].left, Result(r.solver).matched) == Substitute(s.eqGoals[i].right, Result(r.solver).matched)
      {
        ImplGoalsRefine(t, env, seeds, fuel, s.eqGoals[i].left, s.eqGoals[i].right);
      }
    }
  }

  /**
   * The older solver's answer: when a search finds a solver, no goal is left, every
   * impl goal given to the constructor has an instantiation under its slot, and, with a
   * merge that composes, every eq goal given to it holds under the bindings returned.
   */
  lemma RunSound(goals: seq<Goal>, clauses: seq<LegacyClauses.Clause>, env: Env, seeds: Seeds, fuel: nat)
    requires ClausesWellFormed(clauses)
    ensures var r := Run(goals, clauses, env, seeds, fuel).0;
      r.Found? ==>
        && r.solver.eqGoals == [] && r.solver.implGoals == []
        && InitialSlots(goals) <= Result(r.solver).instantiations.Keys
        && (Composes(env.merge) ==> LegacyEqGoals.Solved(EqGoalsOf(goals), Result(r.solver).matched))
  {
    InitFacts(goals, clauses);
    RunFoundClean(Init(goals, clauses), env, seeds, fuel);
    RunFillsInitialSlots(goals, clauses, env, seeds, fuel);
    if Composes(env.merge) {
      InitEqGoalsEquated(goals, clauses, env.merge);
      RunKeepsInitEquations(goals, clauses, env, seeds, fuel);
    }
  }
}

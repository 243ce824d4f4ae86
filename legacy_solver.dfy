/**
 * The `Solver` class of the older engine, its fields updated in place: `HandleEqGoals`
 * pops and rewrites the eq goals in a loop and then rewrites the impl goals, the goal
 * stack and the instantiations; `InternalRun` and `HandleImplGoals` run each candidate
 * as a new `Solver`.  Every method is proved equal to the functions of `LegacyEqGoals`
 * and `LegacySearch`, whose properties are proved there.  The counters behind
 * `FreeVar.New()` and `_goalSeed` are the two `NameSeed` objects passed in.
 */
module LegacySolver {
  import opened Wrappers
  import opened Terms
  import opened Substitution
  import LegacyClauses
  import LegacyMatch
  import Instantiations
  import FreshNames
  import LegacyEqGoals
  import LegacyRetrieve
  import LegacyCandidates
  import LegacySearch
  import opened LegacySolverStates

  /** The two process-wide counters a search draws on. */
  ghost predicate SeedsReady(varSeed: FreshNames.NameSeed, goalSeed: FreshNames.NameSeed)
    reads varSeed, goalSeed
  {
    varSeed.Valid() && varSeed.prefix == "?" && goalSeed.Valid() && goalSeed.prefix == "$g" && varSeed != goalSeed
  }

  /** The counters as the numbers the search functions thread. */
  function SeedValues(varSeed: FreshNames.NameSeed, goalSeed: FreshNames.NameSeed): LegacyCandidates.Seeds
    reads varSeed, goalSeed
  {
    LegacyCandidates.Seeds(varSeed.value, goalSeed.value)
  }

  class Solver {
    var eqGoals: seq<EqGoal>
    var implGoals: seq<RecImplGoalChain>
    var goalStack: seq<ImplGoalChain>
    var clauses: seq<LegacyClauses.Clause>
    var matched: Option<Bindings>
    var instantiations: map<string, Instantiations.Instatiation>

    /** The fields as one value. */
    function State(): SolverState
      reads this
    {
      SolverState(eqGoals, implGoals, goalStack, clauses, matched, instantiations)
    }

    /** `new Solver(goals, clauses)` */
    constructor(goals: seq<Goal>, clauses: seq<LegacyClauses.Clause>)
      ensures State() == Init(goals, clauses)
    {
      eqGoals := EqGoalsOf(goals);
      implGoals := Chained(ImplGoalsOf(goals));
      goalStack := [];
      this.clauses := clauses;
      matched := None;
      instantiations := map[];
    }

    /** `new Solver() { _implGoals = ..., ... }`: a candidate built by `BuildCandidate`. */
    constructor FromState(s: SolverState)
      ensures State() == s
    {
      eqGoals := s.eqGoals;
      implGoals := s.implGoals;
      goalStack := s.goalStack;
      clauses := s.clauses;
      matched := s.matched;
      instantiations := s.instantiations;
    }

    /**
     * `HandleEqGoals()`: the new fields and the answer are those of
     * `LegacyEqGoals.HandleEqGoals`, also when a match fails half-way.
     */
    method HandleEqGoals(merge: (Bindings, Bindings) -> Bindings) returns (ok: bool)
      modifies this
      ensures (State(), ok) == LegacyEqGoals.HandleEqGoals(old(State()), merge)
    {
      if eqGoals == [] {
        return true;
      }
      ghost var d := LegacyEqGoals.Drain(eqGoals, matched, merge);
      while eqGoals != []
        invariant LegacyEqGoals.Drain(eqGoals, matched, merge) == d
        invariant implGoals == old(implGoals) && goalStack == old(goalStack) && clauses == old(clauses)
        invariant instantiations == old(instantiations)
        decreases |eqGoals|
      {
        var n := |eqGoals| - 1;
        var eqGoal := eqGoals[n];
        eqGoals := eqGoals[..n];
        var m := LegacyMatch.TryMatch(eqGoal.left, eqGoal.right);
        if m.None? {
          return false;
        }
        matched := Some(LegacyEqGoals.Next(matched, m.value, merge));
        eqGoals := LegacyEqGoals.RewriteEqGoals(eqGoals, m.value);
      }
      Apply();
      return true;
    }

    /** The end of `HandleEqGoals`: the impl goals, the goal stack and the instantiations rewritten with the bindings. */
    method Apply()
      modifies this
      ensures State() == LegacyEqGoals.Applied(old(State()))
    {
      if matched.Some? {
        implGoals := LegacyEqGoals.RewriteImplGoals(implGoals, matched.value);
        goalStack := LegacyEqGoals.RewriteStack(goalStack, matched.value);
        instantiations := LegacyEqGoals.RewriteInstantiations(instantiations, matched.value);
      }
    }

    /** `Run()`: the instantiations and bindings of the solver found, `null` bindings read as the empty match. */
    method Run(env: Env, varSeed: FreshNames.NameSeed, goalSeed: FreshNames.NameSeed, fuel: nat)
      returns (r: Option<SolverResult>, outOfFuel: bool)
      requires LegacySearch.Searchable(State()) && SeedsReady(varSeed, goalSeed)
      modifies this, varSeed, goalSeed
      ensures SeedsReady(varSeed, goalSeed)
      ensures var (o, seeds) := LegacySearch.InternalRun(old(State()), env, old(SeedValues(varSeed, goalSeed)), fuel);
        && SeedValues(varSeed, goalSeed) == seeds
        && (r.Some? <==> o.Found?) && (r.Some? ==> r.value == LegacySearch.Result(o.solver))
        && (outOfFuel <==> o.OutOfFuel?)
    {
      var solver, exhausted := InternalRun(env, varSeed, goalSeed, fuel);
      if solver.None? {
        return None, exhausted;
      }
      var found := solver.value;
      var m := if found.matched.Some? then found.matched.value else map[];
      return Some(SolverResult(found.instantiations, m)), false;
    }

    /**
     * `InternalRun()`: the solver found, or `null`, as `LegacySearch.InternalRun` says
     * from the fields on entry; `outOfFuel` tells a run cut short by the bound apart.
     */
    method InternalRun(env: Env, varSeed: FreshNames.NameSeed, goalSeed: FreshNames.NameSeed, fuel: nat)
      returns (r: Option<Solver>, outOfFuel: bool)
      requires LegacySearch.Searchable(State()) && SeedsReady(varSeed, goalSeed)
      modifies this, varSeed, goalSeed
      decreases fuel, 1
      ensures SeedsReady(varSeed, goalSeed)
      ensures var (o, seeds) := LegacySearch.InternalRun(old(State()), env, old(SeedValues(varSeed, goalSeed)), fuel);
        && SeedValues(varSeed, goalSeed) == seeds
        && (r.Some? <==> o.Found?) && (r.Some? ==> r.value.State() == o.solver)
        && (outOfFuel <==> o.OutOfFuel?)
    {
      ghost var s := State();
      var ok := HandleEqGoals(env.merge);
      if !ok {
        return None, false;
      }
      LegacyEqGoals.HandleEqGoalsKeeps(s, env.merge);
      r, outOfFuel := HandleImplGoals(env, varSeed, goalSeed, fuel);
    }

    /** `HandleImplGoals()`: this solver when no goal is elected, else the first candidate that succeeds. */
    method HandleImplGoals(env: Env, varSeed: FreshNames.NameSeed, goalSeed: FreshNames.NameSeed, fuel: nat)
      returns (r: Option<Solver>, outOfFuel: bool)
      requires LegacySearch.Searchable(State()) && SeedsReady(varSeed, goalSeed)
      modifies varSeed, goalSeed
      decreases fuel, 0, 1
      ensures SeedsReady(varSeed, goalSeed) && State() == old(State())
      ensures var (o, seeds) := LegacySearch.HandleImplGoals(State(), env, old(SeedValues(varSeed, goalSeed)), fuel);
        && SeedValues(varSeed, goalSeed) == seeds
        && (r.Some? <==> o.Found?) && (r.Some? ==> r.value.State() == o.solver)
        && (outOfFuel <==> o.OutOfFuel?)
    {
      var goal := LegacyRetrieve.RetrieveImplGoal(implGoals);
      if goal.None? {
        return Some(this), false;
      }
      if fuel == 0 {
        return None, true;
      }
      LegacySearch.ElectedOnChain(State(), goal.value);
      r, outOfFuel := ExpandGoal(goal.value, env, varSeed, goalSeed, fuel);
    }

    /** The candidates for the elected goal, each run as a new solver one level deeper. */
    method ExpandGoal(goal: RecImplGoalChain, env: Env, varSeed: FreshNames.NameSeed, goalSeed: FreshNames.NameSeed,
                      fuel: nat)
      returns (r: Option<Solver>, outOfFuel: bool)
      requires LegacySearch.Searchable(State()) && goal.chainId > 0 && fuel > 0 && SeedsReady(varSeed, goalSeed)
      modifies varSeed, goalSeed
      decreases fuel, 0, 0
      ensures SeedsReady(varSeed, goalSeed) && State() == old(State())
      ensures var (o, seeds) := LegacySearch.Expand(State(), goal, env, old(SeedValues(varSeed, goalSeed)), fuel);
        && SeedValues(varSeed, goalSeed) == seeds
        && (r.Some? <==> o.Found?) && (r.Some? ==> r.value.State() == o.solver)
        && (outOfFuel <==> o.OutOfFuel?)
    {
      var s := State();
      LegacySearch.CandidatesSearchable(s, goal, env, SeedValues(varSeed, goalSeed));
      var cands := LegacyCandidates.GetCandidates(s, goal, env, varSeed, goalSeed);
      r, outOfFuel := RunCandidates(cands, env, varSeed, goalSeed, fuel - 1);
    }
  }

  /** The `foreach (var candidate in candidates)` loop: the first candidate whose run finds a solver. */
  method RunCandidates(cands: seq<SolverState>, env: Env, varSeed: FreshNames.NameSeed, goalSeed: FreshNames.NameSeed,
                       fuel: nat)
    returns (r: Option<Solver>, outOfFuel: bool)
    requires forall c :: c in cands ==> LegacySearch.Searchable(c)
    requires SeedsReady(varSeed, goalSeed)
    modifies varSeed, goalSeed
    decreases fuel, 2
    ensures SeedsReady(varSeed, goalSeed)
    ensures var (o, seeds) := LegacySearch.TryEach(cands, 0, env, old(SeedValues(varSeed, goalSeed)), fuel);
      && SeedValues(varSeed, goalSeed) == seeds
      && (r.Some? <==> o.Found?) && (r.Some? ==> r.value.State() == o.solver)
      && (outOfFuel <==> o.OutOfFuel?)
  {
    ghost var whole := LegacySearch.TryEach(cands, 0, env, SeedValues(varSeed, goalSeed), fuel);
    var i := 0;
    while i < |cands|
      invariant i <= |cands| && SeedsReady(varSeed, goalSeed)
      invariant LegacySearch.TryEach(cands, i, env, SeedValues(varSeed, goalSeed), fuel) == whole
      decreases |cands| - i
    {
      var candidate := new Solver.FromState(cands[i]);
      var found, exhausted := candidate.InternalRun(env, varSeed, goalSeed, fuel);
      if found.Some? || exhausted {
        return found, exhausted;
      }
      i := i + 1;
    }
    return None, false;
  }

  /**
   * `new Solver(goals, clauses).Run()`: the result is that of `LegacySearch.Run`, whose
   * soundness `LegacySearch.RunSound` states.
   */
  method Solve(goals: seq<Goal>, clauses: seq<LegacyClauses.Clause>, env: Env,
               varSeed: FreshNames.NameSeed, goalSeed: FreshNames.NameSeed, fuel: nat)
    returns (r: Option<SolverResult>, outOfFuel: bool)
    requires LegacyCandidates.ClausesWellFormed(clauses) && SeedsReady(varSeed, goalSeed)
    modifies varSeed, goalSeed
    ensures SeedsReady(varSeed, goalSeed)
    ensures var (o, seeds) := LegacySearch.Run(goals, clauses, env, old(SeedValues(varSeed, goalSeed)), fuel);
      && SeedValues(varSeed, goalSeed) == seeds
      && (r.Some? <==> o.Found?) && (r.Some? ==> r.value == LegacySearch.Result(o.solver))
      && (outOfFuel <==> o.OutOfFuel?)
  {
    var solver := new Solver(goals, clauses);
    InitFacts(goals, clauses);
    r, outOfFuel := solver.Run(env, varSeed, goalSeed, fuel);
  }
}

/**
 * Candidate generation of the older solver: `GetCandidates` and the two `BuildCandidate`
 * bodies of the snapshot (`Solver.cs` and `Solver_BuildCandidate.cs`).  For every impl
 * clause the type parameters get fresh variables, the freshened head is matched against
 * the elected goal, and a match binding every parameter becomes a candidate solver,
 * unless the goal is already on the goal stack or is too deep; a goal whose target and
 * trait are already on the stack reuses that proof.
 *
 * The two counters the source keeps in static fields, `FreeVar.New()`'s and
 * `Solver._goalSeed`, are `NameSeed` objects in the methods and plain numbers in the
 * functions that specify them.
 */
module LegacyCandidates {
  import opened Wrappers
  import opened Terms
  import opened Substitution
  import LG = LegacyGoals
  import opened LegacyClauses
  import LegacyMatch
  import LegacyMatchFacts
  import EqGoals
  import Instantiations
  import FreshNames
  import SolverStates
  import SolverImplGoals
  import LegacyRetrieve
  import opened LegacySolverStates

  type VarMap = SolverStates.VarMap

  // ------------------------------------------------------------------ clause arguments

  /** The set of the clause's type parameters. */
  function ParamSet(clause: ImplClause): set<int> {
    set p | p in clause.tyParams
  }

  /** `newVars.Keys.All(k => subs.Substitutions.ContainsKey(newVars[k]))` */
  predicate AllBound(varMap: VarMap, subs: Bindings) {
    forall p :: p in varMap ==> varMap[p] in subs
  }

  /** Every type parameter has a variable, and the match binds it. */
  predicate BindsAll(clause: ImplClause, subs: Bindings, varMap: VarMap) {
    forall p :: p in clause.tyParams ==> p in varMap && varMap[p] in subs
  }

  /** `TyParams.ToDictionary(x => x, x => substitutions.Substitutions[varMap[x]])` */
  function ParamValues(clause: ImplClause, subs: Bindings, varMap: VarMap): (r: map<int, Term>)
    requires BindsAll(clause, subs, varMap)
    ensures r.Keys == ParamSet(clause)
  {
    map p | p in clause.tyParams :: subs[varMap[p]]
  }

  /** `TyParams.Select(p => substitutions.Substitutions[varMap[p]])`: the same values, in parameter order. */
  function ParamList(clause: ImplClause, subs: Bindings, varMap: VarMap): (r: seq<Term>)
    requires BindsAll(clause, subs, varMap)
    ensures |r| == |clause.tyParams|
    ensures forall i :: 0 <= i < |r| ==> r[i] == ParamValues(clause, subs, varMap)[clause.tyParams[i]]
  {
    var ps := clause.tyParams;
    assert forall i :: 0 <= i < |ps| ==> ps[i] in varMap && varMap[ps[i]] in subs by {
      forall i | 0 <= i < |ps| ensures ps[i] in varMap && varMap[ps[i]] in subs {
        var p := ps[i];
        assert p in clause.tyParams;
        assert p in varMap && varMap[p] in subs;
      }
    }
    ValuesOf(ps, subs, varMap)
  }

  /** The value the match binds each parameter's variable to, in the order of `ps`. */
  function ValuesOf(ps: seq<int>, subs: Bindings, varMap: VarMap): (r: seq<Term>)
    requires forall i :: 0 <= i < |ps| ==> ps[i] in varMap && varMap[ps[i]] in subs
    ensures |r| == |ps|
    ensures forall i :: 0 <= i < |r| ==> r[i] == subs[varMap[ps[i]]]
  {
    if ps == [] then []
    else
      assert forall i :: 0 <= i < |ps| - 1 ==> ps[1..][i] == ps[i + 1];
      [subs[varMap[ps[0]]]] + ValuesOf(ps[1..], subs, varMap)
  }

  /** The impl goal a constraint asks for, filling `slot`. */
  function ConstraintGoal(c: ImplConstraint, values: map<int, Term>, slot: string): LG.ImplGoal {
    LG.ImplGoal(SubstituteBound(c.target, values), SubstituteBound(c.traitTerm, values), slot)
  }

  /** `implGoalChain with { Goal = ..., RecursionDepth = implGoalChain.RecursionDepth + 1 }`, once per constraint. */
  function Requirements(clause: ImplClause, values: map<int, Term>, goal: RecImplGoalChain, slots: seq<string>)
    : (r: seq<RecImplGoalChain>)
    requires |slots| >= |clause.constraints|
    ensures |r| == |clause.constraints|
  {
    var cs := clause.constraints;
    seq(|cs|, i requires 0 <= i < |cs| =>
      RecImplGoalChain(ConstraintGoal(cs[i], values, slots[i]), goal.chainId, goal.depth + 1))
  }

  /** Constraint `k` becomes a goal filling slot `k`, on the goal's chain, one level deeper. */
  lemma RequirementsShape(clause: ImplClause, values: map<int, Term>, goal: RecImplGoalChain, slots: seq<string>)
    requires |slots| >= |clause.constraints|
    ensures forall k :: 0 <= k < |clause.constraints| ==>
      var r := Requirements(clause, values, goal, slots)[k];
      && r.chainId == goal.chainId && r.depth == goal.depth + 1 && r.goal.resolvesTo == slots[k]
      && r.goal.target == SubstituteBound(clause.constraints[k].target, values)
      && r.goal.traitTerm == SubstituteBound(clause.constraints[k].traitTerm, values)
  {
  }

  /** `new Instatiation(clause.Name, <parameter values>, <one "$g" slot per constraint>)` */
  function NewInstantiation(clause: ImplClause, subs: Bindings, varMap: VarMap, goalSeed: nat): Instantiations.Instatiation
    requires BindsAll(clause, subs, varMap)
  {
    Instantiations.Instatiation(clause.name, ParamList(clause, subs, varMap),
                                SolverImplGoals.Names("$g", goalSeed, |clause.constraints|))
  }

  // ------------------------------------------------------------------ the goal stack

  /** `new ImplGoalChain(implGoalChain.Goal, implGoalChain.ChainId)` */
  function Entry(goal: RecImplGoalChain): ImplGoalChain {
    ImplGoalChain(goal.goal, goal.chainId)
  }

  /** `x.Goal.Trait == implGoalChain.Goal.Trait && x.Goal.Target == implGoalChain.Goal.Target` */
  predicate SameHead(x: ImplGoalChain, goal: LG.ImplGoal) {
    x.goal.traitTerm == goal.traitTerm && x.goal.target == goal.target
  }

  function SameHeadAs(goal: LG.ImplGoal): ImplGoalChain -> bool {
    x => SameHead(x, goal)
  }

  /** Some goal on the stack has the same target and trait. */
  predicate HasSameHead(stack: seq<ImplGoalChain>, goal: LG.ImplGoal) {
    exists k :: 0 <= k < |stack| && SameHead(stack[k], goal)
  }

  /** `TryAddGoalStack`: `HashSet.Add` of the goal's entry. */
  function TryAddGoalStack(goal: RecImplGoalChain, stack: seq<ImplGoalChain>): (r: (bool, seq<ImplGoalChain>))
    ensures r.0 <==> Entry(goal) !in stack
    ensures r.1 == if r.0 then stack + [Entry(goal)] else stack
  {
    StackAdd(stack, Entry(goal))
  }

  /**
   * `TryReuseExistingProof`: when a goal on the stack has the goal's target and trait,
   * the first such one lends its instantiation to the goal's slot; the new solver keeps
   * the receiver's goal stack.
   */
  function TryReuseExistingProof(s: SolverState, goal: RecImplGoalChain, implGoals: seq<RecImplGoalChain>,
                                 eqGoals: seq<EqGoal>): (r: Option<SolverState>)
    requires StackResolved(s)
    ensures r.Some? <==> HasSameHead(s.goalStack, goal.goal)
    ensures r.Some? ==>
      && r.value.eqGoals == eqGoals && r.value.implGoals == implGoals && r.value.goalStack == s.goalStack
      && r.value.clauses == s.clauses && r.value.matched == s.matched
      && exists k :: 0 <= k < |s.goalStack| && SameHead(s.goalStack[k], goal.goal)
           && (forall j :: 0 <= j < k ==> !SameHead(s.goalStack[j], goal.goal))
           && r.value.instantiations == s.instantiations[goal.goal.resolvesTo := s.instantiations[s.goalStack[k].goal.resolvesTo]]
  {
    match LegacyRetrieve.FirstWhere(s.goalStack, SameHeadAs(goal.goal))
    case None => None
    case Some(k) =>
      Some(SolverState(eqGoals, implGoals, s.goalStack, s.clauses, s.matched,
                       s.instantiations[goal.goal.resolvesTo := s.instantiations[s.goalStack[k].goal.resolvesTo]]))
  }

  // ------------------------------------------------------------------ BuildCandidate

  /** A fresh expansion: the cycle check and the depth bound pass and no proof on the stack is reused. */
  predicate Expands(s: SolverState, goal: RecImplGoalChain) {
    Entry(goal) !in s.goalStack && !HasSameHead(s.goalStack, goal.goal) && goal.depth <= MaxRecursion
  }

  /** The solver a fresh expansion builds. */
  function Expansion(s: SolverState, subs: Bindings, varMap: VarMap, clause: ImplClause, goal: RecImplGoalChain,
                     entries: seq<(string, Term)>, goalSeed: nat): SolverState
    requires BindsAll(clause, subs, varMap)
  {
    var inst := NewInstantiation(clause, subs, varMap, goalSeed);
    SolverState(SolverImplGoals.BindingGoals(entries),
                SolverStates.RemoveFirst(s.implGoals, goal)
                  + Requirements(clause, ParamValues(clause, subs, varMap), goal, inst.constraints),
                s.goalStack + [Entry(goal)], s.clauses, s.matched,
                s.instantiations[goal.goal.resolvesTo := inst])
  }

  /** What `BuildCandidate` returns, for either body; `goalSeed` is the slot counter before the call. */
  function BuildCandidate(s: SolverState, subs: Bindings, varMap: VarMap, clause: ImplClause, goal: RecImplGoalChain,
                          env: Env, goalSeed: nat): Option<SolverState>
    requires BindsAll(clause, subs, varMap) && StackResolved(s)
  {
    var implGoals := SolverStates.RemoveFirst(s.implGoals, goal);
    var added := TryAddGoalStack(goal, s.goalStack);
    if !added.0 then None
    else
      var existing := TryReuseExistingProof(s, goal, implGoals, []);
      if existing.Some? then
        if env.variant.Inline? then Some(existing.value.(goalStack := added.1)) else existing
      else if goal.depth > MaxRecursion then None
      else Some(Expansion(s, subs, varMap, clause, goal, env.entries(subs), goalSeed))
  }

  /** How far `BuildCandidate` moves the slot counter: one slot per constraint, on a fresh expansion only. */
  function SlotsTaken(s: SolverState, clause: ImplClause, goal: RecImplGoalChain): nat {
    if Expands(s, goal) then |clause.constraints| else 0
  }

  /**
   * A candidate is rejected exactly when its `(goal, chain id)` is already on the stack,
   * or when no proof can be reused and the goal is deeper than `MaxRecursion`.
   */
  lemma RejectedIff(s: SolverState, subs: Bindings, varMap: VarMap, clause: ImplClause, goal: RecImplGoalChain,
                    env: Env, goalSeed: nat)
    requires BindsAll(clause, subs, varMap) && StackResolved(s)
    ensures BuildCandidate(s, subs, varMap, clause, goal, env, goalSeed).None? <==>
      Entry(goal) in s.goalStack || (!HasSameHead(s.goalStack, goal.goal) && goal.depth > MaxRecursion)
  {
  }

  /**
   * Reuse is decided before the depth bound: whatever the depth, a goal whose target
   * and trait are on the stack (and which is not itself there) takes the first such
   * goal's instantiation and adds no goal.  `Solver.cs` keeps the updated stack,
   * `Solver_BuildCandidate.cs` the receiver's.
   */
  lemma ReuseBeforeDepth(s: SolverState, subs: Bindings, varMap: VarMap, clause: ImplClause, goal: RecImplGoalChain,
                         env: Env, goalSeed: nat)
    requires BindsAll(clause, subs, varMap) && StackResolved(s)
    requires Entry(goal) !in s.goalStack && HasSameHead(s.goalStack, goal.goal)
    ensures var r := BuildCandidate(s, subs, varMap, clause, goal, env, goalSeed);
      && r.Some? && r.value.eqGoals == [] && r.value.implGoals == SolverStates.RemoveFirst(s.implGoals, goal)
      && r.value.goalStack == (if env.variant.Inline? then s.goalStack + [Entry(goal)] else s.goalStack)
      && r.value.clauses == s.clauses && r.value.matched == s.matched
      && (exists k :: 0 <= k < |s.goalStack| && SameHead(s.goalStack[k], goal.goal)
           && (forall j :: 0 <= j < k ==> !SameHead(s.goalStack[j], goal.goal))
           && r.value.instantiations == s.instantiations[goal.goal.resolvesTo := s.instantiations[s.goalStack[k].goal.resolvesTo]])
      && SlotsTaken(s, clause, goal) == 0
  {
  }

  /** The two bodies differ only in the goal stack of a reused proof. */
  lemma VariantsAgree(s: SolverState, subs: Bindings, varMap: VarMap, clause: ImplClause, goal: RecImplGoalChain,
                      env: Env, goalSeed: nat)
    requires BindsAll(clause, subs, varMap) && StackResolved(s)
    ensures var a := BuildCandidate(s, subs, varMap, clause, goal, env.(variant := Inline), goalSeed);
            var b := BuildCandidate(s, subs, varMap, clause, goal, env.(variant := Split), goalSeed);
      && a.Some? == b.Some?
      && (a.Some? ==> a.value.(goalStack := b.value.goalStack) == b.value)
      && (a.Some? && !Expands(s, goal) ==> a.value.goalStack == s.goalStack + [Entry(goal)] && b.value.goalStack == s.goalStack)
      && (a.Some? && Expands(s, goal) ==> a == b)
  {
  }

  /**
   * A fresh expansion: one eq goal `?x = value` per binding of the match, the goal
   * replaced by one sub-goal per constraint (slot `k` of the new instantiation, the
   * goal's chain id, one level deeper), the goal's entry on the stack, and under the
   * goal's slot an instantiation of the clause with the parameter values and fresh slots.
   */
  lemma ExpansionFacts(s: SolverState, subs: Bindings, varMap: VarMap, clause: ImplClause, goal: RecImplGoalChain,
                       env: Env, goalSeed: nat)
    requires BindsAll(clause, subs, varMap) && StackResolved(s) && Enumerates(env.entries)
    requires Expands(s, goal)
    ensures var r := BuildCandidate(s, subs, varMap, clause, goal, env, goalSeed);
      var inst := r.value.instantiations[goal.goal.resolvesTo];
      && r.Some?
      && |r.value.eqGoals| == |subs|
      && (forall x :: x in subs ==> EqGoals.EqGoal(FreeVar(x), subs[x]) in r.value.eqGoals)
      && (forall e :: e in r.value.eqGoals ==> e.left.FreeVar? && e.left.name in subs && e.right == subs[e.left.name])
      && r.value.goalStack == s.goalStack + [Entry(goal)]
      && r.value.clauses == s.clauses && r.value.matched == s.matched
      && inst.implName == clause.name && inst.vars == ParamList(clause, subs, varMap)
      && |inst.constraints| == |clause.constraints|
      && (forall i, j :: 0 <= i < j < |inst.constraints| ==> inst.constraints[i] != inst.constraints[j])
      && r.value.implGoals == SolverStates.RemoveFirst(s.implGoals, goal)
           + Requirements(clause, ParamValues(clause, subs, varMap), goal, inst.constraints)
      && (forall k :: k in s.instantiations && k != goal.goal.resolvesTo ==> r.value.instantiations[k] == s.instantiations[k])
  {
    SolverImplGoals.BindingGoalsCover(subs, env.entries(subs));
    SlotsDistinct(goalSeed, |clause.constraints|);
  }

  /** The fresh slots of an instantiation are pairwise different. */
  lemma SlotsDistinct(goalSeed: nat, n: nat)
    ensures var slots := SolverImplGoals.Names("$g", goalSeed, n);
      forall i, j :: 0 <= i < j < |slots| ==> slots[i] != slots[j]
  {
    var slots := SolverImplGoals.Names("$g", goalSeed, n);
    forall i, j | 0 <= i < j < |slots| ensures slots[i] != slots[j] {
      FreshNames.FreshNamesDistinct("$g", goalSeed + i + 1, goalSeed + j + 1);
    }
  }

  /**
   * A candidate keeps the invariants of the search, the clauses and every filled slot,
   * fills the goal's slot, and keeps every other pending goal; a new goal is on the
   * goal's chain.
   */
  lemma BuildKeepsValid(s: SolverState, subs: Bindings, varMap: VarMap, clause: ImplClause, goal: RecImplGoalChain,
                        env: Env, goalSeed: nat)
    requires BindsAll(clause, subs, varMap) && Valid(s) && goal.chainId > 0
    ensures var r := BuildCandidate(s, subs, varMap, clause, goal, env, goalSeed);
      r.Some? ==>
        && Valid(r.value) && r.value.clauses == s.clauses && r.value.matched == s.matched
        && r.value.instantiations.Keys == s.instantiations.Keys + {goal.goal.resolvesTo}
        && (forall g :: g in s.implGoals && g != goal ==> g in r.value.implGoals)
  {
    var r := BuildCandidate(s, subs, varMap, clause, goal, env, goalSeed);
    if r.Some? {
      RemoveFirstKeeps(s.implGoals, goal);
      if Expands(s, goal) {
        assert r.value == Expansion(s, subs, varMap, clause, goal, env.entries(subs), goalSeed);
        ExpansionKeepsValid(s, subs, varMap, clause, goal, env.entries(subs), goalSeed);
      } else {
        assert r.value.implGoals == SolverStates.RemoveFirst(s.implGoals, goal);
        assert r.value.goalStack == s.goalStack || r.value.goalStack == s.goalStack + [Entry(goal)];
      }
    }
  }

  /** A fresh expansion keeps the invariants: its new goals are on the goal's chain. */
  lemma ExpansionKeepsValid(s: SolverState, subs: Bindings, varMap: VarMap, clause: ImplClause, goal: RecImplGoalChain,
                            entries: seq<(string, Term)>, goalSeed: nat)
    requires BindsAll(clause, subs, varMap) && Valid(s) && goal.chainId > 0 && Entry(goal) !in s.goalStack
    ensures var r := Expansion(s, subs, varMap, clause, goal, entries, goalSeed);
      && Valid(r) && r.instantiations.Keys == s.instantiations.Keys + {goal.goal.resolvesTo}
  {
    var r := Expansion(s, subs, varMap, clause, goal, entries, goalSeed);
    var rest := SolverStates.RemoveFirst(s.implGoals, goal);
    RemoveFirstKeeps(s.implGoals, goal);
    var inst := NewInstantiation(clause, subs, varMap, goalSeed);
    var reqs := Requirements(clause, ParamValues(clause, subs, varMap), goal, inst.constraints);
    assert r.implGoals == rest + reqs;
    assert forall i :: 0 <= i < |reqs| ==> reqs[i].chainId == goal.chainId;
    assert forall i :: 0 <= i < |rest| ==> rest[i] in s.implGoals;
  }

  /** `List.Remove` keeps every element other than the one removed, and adds none. */
  lemma RemoveFirstKeeps<T>(s: seq<T>, x: T)
    ensures forall y :: y in s && y != x ==> y in SolverStates.RemoveFirst(s, x)
    ensures forall y :: y in SolverStates.RemoveFirst(s, x) ==> y in s
  {
    var r := SolverStates.RemoveFirst(s, x);
    forall y | y in s && y != x ensures y in r {
      if x in s {
        assert multiset(r)[y] == multiset(s)[y];
      }
    }
    forall y | y in r ensures y in s {
      if x in s {
        assert multiset(r)[y] <= multiset(s)[y];
      }
    }
  }

  // ------------------------------------------------------------------ the two bodies

  /** The `foreach (var s in substitutions.Substitutions)` loop, in the dictionary's order `entries`. */
  method AddSubstitutionsAsEqGoals(entries: seq<(string, Term)>, eqGoals: seq<EqGoal>) returns (r: seq<EqGoal>)
    ensures r == eqGoals + SolverImplGoals.BindingGoals(entries)
  {
    r := eqGoals;
    for i := 0 to |entries|
      invariant |r| == |eqGoals| + i
      invariant r[..|eqGoals|] == eqGoals
      invariant forall k :: 0 <= k < i ==> r[|eqGoals| + k] == EqGoals.EqGoal(FreeVar(entries[k].0), entries[k].1)
    {
      r := r + [EqGoals.EqGoal(FreeVar(entries[i].0), entries[i].1)];
    }
  }

  /** `AddRequirementsFromInstantiation`: one sub-goal per constraint, appended in order. */
  method AddRequirementsFromInstantiation(subs: Bindings, varMap: VarMap, clause: ImplClause, goal: RecImplGoalChain,
                                          inst: Instantiations.Instatiation, implGoals: seq<RecImplGoalChain>)
    returns (r: seq<RecImplGoalChain>)
    requires BindsAll(clause, subs, varMap) && |inst.constraints| >= |clause.constraints|
    ensures r == implGoals + Requirements(clause, ParamValues(clause, subs, varMap), goal, inst.constraints)
  {
    var substConstraints := ParamValues(clause, subs, varMap);
    ghost var reqs := Requirements(clause, substConstraints, goal, inst.constraints);
    r := implGoals;
    for i := 0 to |clause.constraints|
      invariant |r| == |implGoals| + i
      invariant r[..|implGoals|] == implGoals
      invariant forall k :: 0 <= k < i ==> r[|implGoals| + k] == reqs[k]
    {
      var c := clause.constraints[i];
      var n := inst.constraints[i];
      r := r + [RecImplGoalChain(LG.ImplGoal(SubstituteBound(c.target, substConstraints),
                                              SubstituteBound(c.traitTerm, substConstraints), n),
                                 goal.chainId, goal.depth + 1)];
    }
  }

  /** `AddNewInstantiation`: the instantiation, with fresh slots, stored under the goal's slot. */
  method AddNewInstantiation(instantiations: map<string, Instantiations.Instatiation>, subs: Bindings, varMap: VarMap,
                             clause: ImplClause, goal: RecImplGoalChain, goalSeed: FreshNames.NameSeed)
    returns (insts: map<string, Instantiations.Instatiation>, inst: Instantiations.Instatiation)
    requires goalSeed.Valid() && goalSeed.prefix == "$g" && BindsAll(clause, subs, varMap)
    modifies goalSeed
    ensures goalSeed.Valid() && goalSeed.value == old(goalSeed.value) + |clause.constraints|
    ensures inst == NewInstantiation(clause, subs, varMap, old(goalSeed.value))
    ensures forall i :: 0 <= i < |inst.constraints| ==> inst.constraints[i] !in old(goalSeed.issued)
    ensures insts == instantiations[goal.goal.resolvesTo := inst]
  {
    SolverImplGoals.NamesFresh(goalSeed, |clause.constraints|);
    var slots := SolverImplGoals.NewNames(goalSeed, |clause.constraints|);
    inst := Instantiations.Instatiation(clause.name, ParamList(clause, subs, varMap), slots);
    insts := instantiations[goal.goal.resolvesTo := inst];
  }

  /** `BuildCandidate` of `Solver.cs`, with its loops inline. */
  method BuildCandidateInline(s: SolverState, subs: Bindings, varMap: VarMap, clause: ImplClause, goal: RecImplGoalChain,
                              env: Env, goalSeed: FreshNames.NameSeed) returns (r: Option<SolverState>)
    requires env.variant.Inline? && BindsAll(clause, subs, varMap) && StackResolved(s)
    requires goalSeed.Valid() && goalSeed.prefix == "$g"
    modifies goalSeed
    ensures r == BuildCandidate(s, subs, varMap, clause, goal, env, old(goalSeed.value))
    ensures goalSeed.Valid() && goalSeed.value == old(goalSeed.value) + SlotsTaken(s, clause, goal)
  {
    var eqGoals: seq<EqGoal> := [];
    var implGoals := SolverStates.RemoveFirst(s.implGoals, goal);
    var added := StackAdd(s.goalStack, Entry(goal));
    if !added.0 {
      return None;
    }
    var implGoalStack := added.1;
    var first := LegacyRetrieve.FirstWhere(s.goalStack, SameHeadAs(goal.goal));
    assert first.Some? <==> HasSameHead(s.goalStack, goal.goal);
    if first.Some? {
      var newInstantiations := s.instantiations[goal.goal.resolvesTo := s.instantiations[s.goalStack[first.value].goal.resolvesTo]];
      return Some(SolverState(eqGoals, implGoals, implGoalStack, s.clauses, s.matched, newInstantiations));
    }
    if goal.depth > MaxRecursion {
      return None;
    }
    r := ExpandInline(s, subs, varMap, clause, goal, env, goalSeed);
    assert implGoalStack == s.goalStack + [Entry(goal)];
  }

  /** The part of `BuildCandidate` of `Solver.cs` after the depth bound: the fresh expansion, its loops inline. */
  method ExpandInline(s: SolverState, subs: Bindings, varMap: VarMap, clause: ImplClause, goal: RecImplGoalChain,
                      env: Env, goalSeed: FreshNames.NameSeed) returns (r: Option<SolverState>)
    requires BindsAll(clause, subs, varMap)
    requires goalSeed.Valid() && goalSeed.prefix == "$g"
    modifies goalSeed
    ensures r == Some(Expansion(s, subs, varMap, clause, goal, env.entries(subs), old(goalSeed.value)))
    ensures goalSeed.Valid() && goalSeed.value == old(goalSeed.value) + |clause.constraints|
  {
    var eqGoals: seq<EqGoal> := [];
    var implGoals := SolverStates.RemoveFirst(s.implGoals, goal);
    var implGoalStack := s.goalStack + [Entry(goal)];
    var slots := SolverImplGoals.NewNames(goalSeed, |clause.constraints|);
    var inst := Instantiations.Instatiation(clause.name, ParamList(clause, subs, varMap), slots);
    var substConstraints := ParamValues(clause, subs, varMap);
    var instantiations := s.instantiations[goal.goal.resolvesTo := inst];
    var entries := env.entries(subs);
    for i := 0 to |entries|
      invariant |eqGoals| == i
      invariant forall k :: 0 <= k < i ==> eqGoals[k] == EqGoals.EqGoal(FreeVar(entries[k].0), entries[k].1)
    {
      eqGoals := eqGoals + [EqGoals.EqGoal(FreeVar(entries[i].0), entries[i].1)];
    }
    ghost var reqs := Requirements(clause, substConstraints, goal, inst.constraints);
    ghost var rest := implGoals;
    for i := 0 to |clause.constraints|
      invariant implGoals == rest + reqs[..i]
    {
      var c := clause.constraints[i];
      var n := inst.constraints[i];
      implGoals := implGoals + [RecImplGoalChain(LG.ImplGoal(SubstituteBound(c.target, substConstraints),
                                                              SubstituteBound(c.traitTerm, substConstraints), n),
                                                 goal.chainId, goal.depth + 1)];
      assert reqs[..i + 1] == reqs[..i] + [reqs[i]];
    }
    assert reqs[..|clause.constraints|] == reqs;
    assert eqGoals == SolverImplGoals.BindingGoals(entries);
    r := Some(SolverState(eqGoals, implGoals, implGoalStack, s.clauses, s.matched, instantiations));
  }

  /** `BuildCandidate` of `Solver_BuildCandidate.cs`, through its helper methods. */
  method BuildCandidateSplit(s: SolverState, subs: Bindings, varMap: VarMap, clause: ImplClause, goal: RecImplGoalChain,
                             env: Env, goalSeed: FreshNames.NameSeed) returns (r: Option<SolverState>)
    requires env.variant.Split? && BindsAll(clause, subs, varMap) && StackResolved(s)
    requires goalSeed.Valid() && goalSeed.prefix == "$g"
    modifies goalSeed
    ensures r == BuildCandidate(s, subs, varMap, clause, goal, env, old(goalSeed.value))
    ensures goalSeed.Valid() && goalSeed.value == old(goalSeed.value) + SlotsTaken(s, clause, goal)
  {
    var eqGoals: seq<EqGoal> := [];
    var implGoals := SolverStates.RemoveFirst(s.implGoals, goal);
    var added := TryAddGoalStack(goal, s.goalStack);
    if !added.0 {
      return None;
    }
    var implGoalStack := added.1;
    var existing := TryReuseExistingProof(s, goal, implGoals, eqGoals);
    if existing.Some? {
      return existing;
    }
    if goal.depth > MaxRecursion {
      return None;
    }
    var instantiations, inst := AddNewInstantiation(s.instantiations, subs, varMap, clause, goal, goalSeed);
    eqGoals := AddSubstitutionsAsEqGoals(env.entries(subs), eqGoals);
    implGoals := AddRequirementsFromInstantiation(subs, varMap, clause, goal, inst, implGoals);
    assert eqGoals == SolverImplGoals.BindingGoals(env.entries(subs));
    r := Some(SolverState(eqGoals, implGoals, implGoalStack, s.clauses, s.matched, instantiations));
  }

  // ------------------------------------------------------------------ GetCandidates

  /**
   * `Replace<BoundVar>(b => newVars[b])` finds every bound variable of the clause's head
   * among its type parameters, and `ToDictionary` finds no parameter twice.
   */
  predicate WellFormed(clause: ImplClause) {
    && (forall i, j :: 0 <= i < j < |clause.tyParams| ==> clause.tyParams[i] != clause.tyParams[j])
    && BoundVars(clause.target) + BoundVars(clause.traitTerm) <= ParamSet(clause)
  }

  /** Every impl clause of the list is well formed. */
  predicate ClausesWellFormed(clauses: seq<Clause>) {
    forall i :: 0 <= i < |clauses| && clauses[i].Impl? ==> WellFormed(clauses[i].impl)
  }

  /** The two counters: `FreeVar.New()`'s and `_goalSeed`. */
  datatype Seeds = Seeds(vars: nat, goals: nat)

  /** `Term.TryMatch(new App("S", [target, traitTerm]), new App("S", [implGoal.Target, implGoal.Trait]))` */
  function HeadMatch(clause: ImplClause, varMap: VarMap, goal: LG.ImplGoal): Option<Bindings> {
    LegacyMatch.Unify(App("S", [SolverImplGoals.Freshen(clause.target, varMap), SolverImplGoals.Freshen(clause.traitTerm, varMap)]),
                      App("S", [goal.target, goal.traitTerm]))
  }

  /** What the turn of a clause yields once the heads are matched: the candidate, and the slot counter after it. */
  function AfterMatch(s: SolverState, goal: RecImplGoalChain, clause: ImplClause, env: Env, varMap: VarMap,
                      m: Option<Bindings>, goalSeed: nat): (Option<SolverState>, nat)
    requires StackResolved(s) && forall p :: p in clause.tyParams ==> p in varMap
  {
    match m
    case None => (None, goalSeed)
    case Some(subs) =>
      if AllBound(varMap, subs) then
        (BuildCandidate(s, subs, varMap, clause, goal, env, goalSeed), goalSeed + SlotsTaken(s, clause, goal))
      else (None, goalSeed)
  }

  /** One turn of the `foreach` of `GetCandidates`: the candidate the clause yields, and the counters after it. */
  function TryClause(s: SolverState, goal: RecImplGoalChain, clause: ImplClause, env: Env, seeds: Seeds)
    : (Option<SolverState>, Seeds)
    requires WellFormed(clause) && StackResolved(s)
  {
    var varMap := SolverImplGoals.FreshVarMap(clause.tyParams, seeds.vars);
    SolverImplGoals.FreshVarMapFacts(clause.tyParams, seeds.vars);
    var t := AfterMatch(s, goal, clause, env, varMap, HeadMatch(clause, varMap, goal.goal), seeds.goals);
    (t.0, Seeds(seeds.vars + |clause.tyParams|, t.1))
  }

  /** The candidates the clauses yield, in clause order; the records other than impl clauses are skipped. */
  function Candidates(s: SolverState, goal: RecImplGoalChain, env: Env, clauses: seq<Clause>, seeds: Seeds)
    : (seq<SolverState>, Seeds)
    requires ClausesWellFormed(clauses) && StackResolved(s)
    decreases |clauses|
  {
    if clauses == [] then ([], seeds)
    else
      var n := |clauses| - 1;
      var before := Candidates(s, goal, env, clauses[..n], seeds);
      if clauses[n].OtherClause? then before
      else
        var t := TryClause(s, goal, clauses[n].impl, env, before.1);
        (before.0 + (if t.0.Some? then [t.0.value] else []), t.1)
  }

  /**
   * A candidate comes from a clause whose freshened head the older unifier matches with
   * the goal: under the match, the clause's target and trait are the goal's.
   */
  lemma TryClauseUnifies(s: SolverState, goal: RecImplGoalChain, clause: ImplClause, env: Env, seeds: Seeds)
    requires WellFormed(clause) && StackResolved(s)
    requires TryClause(s, goal, clause, env, seeds).0.Some?
    ensures var varMap := SolverImplGoals.FreshVarMap(clause.tyParams, seeds.vars);
      && HeadMatch(clause, varMap, goal.goal).Some?
      && var m := HeadMatch(clause, varMap, goal.goal).value;
         && Substitute(SolverImplGoals.Freshen(clause.target, varMap), m) == Substitute(goal.goal.target, m)
         && Substitute(SolverImplGoals.Freshen(clause.traitTerm, varMap), m) == Substitute(goal.goal.traitTerm, m)
  {
    var varMap := SolverImplGoals.FreshVarMap(clause.tyParams, seeds.vars);
    var l := App("S", [SolverImplGoals.Freshen(clause.target, varMap), SolverImplGoals.Freshen(clause.traitTerm, varMap)]);
    var r := App("S", [goal.goal.target, goal.goal.traitTerm]);
    var m := LegacyMatch.Unify(l, r).value;
    LegacyMatchFacts.UnifySound(l, r);
    SubstituteShape(l, m);
    SubstituteShape(r, m);
    assert SubstituteArgs(l.args, m)[0] == SubstituteArgs(r.args, m)[0];
    assert SubstituteArgs(l.args, m)[1] == SubstituteArgs(r.args, m)[1];
  }

  /**
   * Every candidate of a valid solver is valid, on the same clauses, with the goal's slot
   * filled and every other filled slot and pending goal kept.
   */
  lemma {:induction false} CandidatesValid(s: SolverState, goal: RecImplGoalChain, env: Env, clauses: seq<Clause>, seeds: Seeds)
    requires ClausesWellFormed(clauses) && Valid(s) && goal.chainId > 0
    ensures forall c :: c in Candidates(s, goal, env, clauses, seeds).0 ==>
      && Valid(c) && c.clauses == s.clauses && c.matched == s.matched
      && c.instantiations.Keys == s.instantiations.Keys + {goal.goal.resolvesTo}
      && (forall g :: g in s.implGoals && g != goal ==> g in c.implGoals)
    decreases |clauses|
  {
    if clauses != [] {
      var n := |clauses| - 1;
      var before := Candidates(s, goal, env, clauses[..n], seeds);
      CandidatesValid(s, goal, env, clauses[..n], seeds);
      if clauses[n].Impl? {
        TryClauseValid(s, goal, clauses[n].impl, env, before.1);
      }
    }
  }

  /** The candidate of one clause keeps what `CandidatesValid` states. */
  lemma TryClauseValid(s: SolverState, goal: RecImplGoalChain, clause: ImplClause, env: Env, seeds: Seeds)
    requires WellFormed(clause) && Valid(s) && goal.chainId > 0
    ensures var c := TryClause(s, goal, clause, env, seeds).0;
      c.Some? ==>
        && Valid(c.value) && c.value.clauses == s.clauses && c.value.matched == s.matched
        && c.value.instantiations.Keys == s.instantiations.Keys + {goal.goal.resolvesTo}
        && (forall g :: g in s.implGoals && g != goal ==> g in c.value.implGoals)
  {
    var varMap := SolverImplGoals.FreshVarMap(clause.tyParams, seeds.vars);
    var m := HeadMatch(clause, varMap, goal.goal);
    SolverImplGoals.FreshVarMapFacts(clause.tyParams, seeds.vars);
    if m.Some? && AllBound(varMap, m.value) {
      BuildKeepsValid(s, m.value, varMap, clause, goal, env, seeds.goals);
    }
  }

  /** The variable counter moves by the parameters of every impl clause; the slot counter never moves back. */
  lemma {:induction false} CandidatesSeeds(s: SolverState, goal: RecImplGoalChain, env: Env, clauses: seq<Clause>, seeds: Seeds)
    requires ClausesWellFormed(clauses) && StackResolved(s)
    ensures Candidates(s, goal, env, clauses, seeds).1.vars == seeds.vars + ParamCount(clauses)
    ensures Candidates(s, goal, env, clauses, seeds).1.goals >= seeds.goals
    decreases |clauses|
  {
    if clauses != [] {
      CandidatesSeeds(s, goal, env, clauses[..|clauses| - 1], seeds);
    }
  }

  /** One more clause: its turn, taken with the counters the clauses before it left. */
  lemma CandidatesStep(s: SolverState, goal: RecImplGoalChain, env: Env, clauses: seq<Clause>, i: nat, seeds: Seeds)
    requires ClausesWellFormed(clauses) && StackResolved(s) && i < |clauses|
    ensures ClausesWellFormed(clauses[..i])
    ensures var before := Candidates(s, goal, env, clauses[..i], seeds);
      Candidates(s, goal, env, clauses[..i + 1], seeds)
      == if clauses[i].OtherClause? then before
         else
           var t := TryClause(s, goal, clauses[i].impl, env, before.1);
           (before.0 + (if t.0.Some? then [t.0.value] else []), t.1)
  {
    assert clauses[..i + 1][..i] == clauses[..i];
  }

  /** The type parameters of the impl clauses, counted. */
  function ParamCount(clauses: seq<Clause>): nat {
    if clauses == [] then 0
    else
      var n := |clauses| - 1;
      ParamCount(clauses[..n]) + (if clauses[n].Impl? then |clauses[n].impl.tyParams| else 0)
  }

  /** With every parameter bound, the part after `TryMatch` is `BuildCandidate` and its slot count. */
  lemma AfterMatchBuilds(s: SolverState, goal: RecImplGoalChain, clause: ImplClause, env: Env, varMap: VarMap,
                         m: Bindings, goalSeed: nat)
    requires StackResolved(s) && (forall p :: p in clause.tyParams ==> p in varMap) && AllBound(varMap, m)
    ensures BindsAll(clause, m, varMap)
    ensures AfterMatch(s, goal, clause, env, varMap, Some(m), goalSeed)
            == (BuildCandidate(s, m, varMap, clause, goal, env, goalSeed), goalSeed + SlotsTaken(s, clause, goal))
  {
  }

  /** The part of a turn of `GetCandidates` after `TryMatch`. */
  method BuildAfterMatch(s: SolverState, goal: RecImplGoalChain, clause: ImplClause, env: Env, varMap: VarMap,
                         subs: Option<Bindings>, goalSeed: FreshNames.NameSeed) returns (r: Option<SolverState>)
    requires StackResolved(s) && forall p :: p in clause.tyParams ==> p in varMap
    requires goalSeed.Valid() && goalSeed.prefix == "$g"
    modifies goalSeed
    ensures goalSeed.Valid()
    ensures (r, goalSeed.value) == AfterMatch(s, goal, clause, env, varMap, subs, old(goalSeed.value))
  {
    if subs.None? {
      return None;
    }
    var m := subs.value;
    if !AllBound(varMap, m) {
      return None;
    }
    AfterMatchBuilds(s, goal, clause, env, varMap, m, goalSeed.value);
    if env.variant.Inline? {
      r := BuildCandidateInline(s, m, varMap, clause, goal, env, goalSeed);
    } else {
      r := BuildCandidateSplit(s, m, varMap, clause, goal, env, goalSeed);
    }
  }

  /** One turn of the loop of `GetCandidates`. */
  method TryNext(s: SolverState, goal: RecImplGoalChain, env: Env, clause: ImplClause,
                 varSeed: FreshNames.NameSeed, goalSeed: FreshNames.NameSeed) returns (r: Option<SolverState>)
    requires WellFormed(clause) && StackResolved(s)
    requires varSeed.Valid() && varSeed.prefix == "?" && goalSeed.Valid() && goalSeed.prefix == "$g"
    requires varSeed != goalSeed
    modifies varSeed, goalSeed
    ensures varSeed.Valid() && goalSeed.Valid()
    ensures (r, Seeds(varSeed.value, goalSeed.value)) == TryClause(s, goal, clause, env, Seeds(old(varSeed.value), old(goalSeed.value)))
  {
    ghost var seeds := Seeds(varSeed.value, goalSeed.value);
    var newVars := SolverImplGoals.FreshVars(clause.tyParams, varSeed);
    var traitTerm := SolverImplGoals.Freshen(clause.traitTerm, newVars);
    var target := SolverImplGoals.Freshen(clause.target, newVars);
    var subs := LegacyMatch.TryMatch(App("S", [target, traitTerm]), App("S", [goal.goal.target, goal.goal.traitTerm]));
    assert subs == HeadMatch(clause, newVars, goal.goal);
    SolverImplGoals.FreshVarMapFacts(clause.tyParams, seeds.vars);
    ghost var t := AfterMatch(s, goal, clause, env, newVars, subs, seeds.goals);
    assert TryClause(s, goal, clause, env, seeds) == (t.0, Seeds(seeds.vars + |clause.tyParams|, t.1));
    r := BuildAfterMatch(s, goal, clause, env, newVars, subs, goalSeed);
    assert (r, goalSeed.value) == t;
  }

  /** A turn of the loop of `GetCandidates` on clause `i`, which may be a record other than an impl clause. */
  method StepCandidates(s: SolverState, goal: RecImplGoalChain, env: Env, clauses: seq<Clause>, i: nat,
                        cands: seq<SolverState>, ghost seeds: Seeds,
                        varSeed: FreshNames.NameSeed, goalSeed: FreshNames.NameSeed) returns (next: seq<SolverState>)
    requires ClausesWellFormed(clauses) && StackResolved(s) && i < |clauses|
    requires varSeed.Valid() && varSeed.prefix == "?" && goalSeed.Valid() && goalSeed.prefix == "$g"
    requires varSeed != goalSeed
    requires ClausesWellFormed(clauses[..i])
    requires (cands, Seeds(varSeed.value, goalSeed.value)) == Candidates(s, goal, env, clauses[..i], seeds)
    modifies varSeed, goalSeed
    ensures varSeed.Valid() && goalSeed.Valid()
    ensures (next, Seeds(varSeed.value, goalSeed.value)) == Candidates(s, goal, env, clauses[..i + 1], seeds)
  {
    ghost var before := (cands, Seeds(varSeed.value, goalSeed.value));
    CandidatesStep(s, goal, env, clauses, i, seeds);
    next := cands;
    if clauses[i].Impl? {
      ghost var t := TryClause(s, goal, clauses[i].impl, env, before.1);
      var candidate := TryNext(s, goal, env, clauses[i].impl, varSeed, goalSeed);
      assert candidate == t.0 && Seeds(varSeed.value, goalSeed.value) == t.1;
      if candidate.Some? {
        next := cands + [candidate.value];
      }
      assert next == before.0 + (if t.0.Some? then [t.0.value] else []);
      assert (next, Seeds(varSeed.value, goalSeed.value)) == (before.0 + (if t.0.Some? then [t.0.value] else []), t.1);
    } else {
      assert (next, Seeds(varSeed.value, goalSeed.value)) == before;
    }
  }

  /** `GetCandidates`: every impl clause is tried in clause order. */
  method GetCandidates(s: SolverState, goal: RecImplGoalChain, env: Env,
                       varSeed: FreshNames.NameSeed, goalSeed: FreshNames.NameSeed) returns (cands: seq<SolverState>)
    requires ClausesWellFormed(s.clauses) && StackResolved(s)
    requires varSeed.Valid() && varSeed.prefix == "?" && goalSeed.Valid() && goalSeed.prefix == "$g"
    requires varSeed != goalSeed
    modifies varSeed, goalSeed
    ensures varSeed.Valid() && goalSeed.Valid()
    ensures (cands, Seeds(varSeed.value, goalSeed.value))
            == Candidates(s, goal, env, s.clauses, Seeds(old(varSeed.value), old(goalSeed.value)))
  {
    ghost var seeds := Seeds(varSeed.value, goalSeed.value);
    cands := [];
    assert s.clauses[..0] == [];
    for i := 0 to |s.clauses|
      invariant varSeed.Valid() && goalSeed.Valid()
      invariant ClausesWellFormed(s.clauses[..i])
      invariant (cands, Seeds(varSeed.value, goalSeed.value)) == Candidates(s, goal, env, s.clauses[..i], seeds)
    {
      CandidatesStep(s, goal, env, s.clauses, i, seeds);
      cands := StepCandidates(s, goal, env, s.clauses, i, cands, seeds, varSeed, goalSeed);
    }
    assert s.clauses[..|s.clauses|] == s.clauses;
  }
}

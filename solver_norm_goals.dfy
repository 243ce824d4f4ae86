/**
 * Candidate generation for norm goals (`Solver_NormGoals.cs`): the projection of the
 * elected norm goal is reduced by an AliasImplClause of the same alias name, by an
 * ImplClause or an AssocTyClause that fixes the associated type, and, last of all, is
 * left as an irreducible alias whose trait must then be proved.
 *
 * As for impl goals, each method reports the runtime's choices (fresh-name numbers,
 * dictionary enumeration order, the proof-chain nodes before the call) as ghost
 * outputs, and its result is a function of its inputs and those choices.
 */
module SolverNormGoals {
  import opened Wrappers
  import opened Terms
  import opened Substitution
  import opened TermMatches
  import opened Clauses
  import opened ProofChains
  import opened FreshNames
  import opened SolverStates
  import opened SolverImplGoals
  import ImplGoals
  import NormGoals
  import EqGoals
  import ProvenGoals
  import Unifier
  import TermMatching
  import UnifierFacts


  /** `Goal.Var`: the variable the alias normalises to. */
  function ResultVar(ng: RecNormGoalChain): Term {
    FreeVar(ng.goal.resultVar)
  }

  // ------------------------------------------------------------------ requirements

  /** How many `$g` slots `AddRequirementsFromNorm` takes. */
  function NormSlotCount(clause: Clause): nat {
    if clause.AliasImplClause? || clause.ImplClause? then 1 else 0
  }

  /**
   * The impl goal a reduction leaves behind: the constraint of an AliasImplClause, or
   * the head of an ImplClause with no associated constraints, filling the slot
   * `$g<goalSeed+1>`, on the norm goal's own node, one level deeper.
   */
  function NormRequirements(clause: Clause, values: map<int, Term>, ng: RecNormGoalChain, goalSeed: nat)
    : seq<RecImplGoalChain>
  {
    var slot := FreshName("$g", goalSeed + 1);
    if clause.AliasImplClause? then
      [RecImplGoalChain(ConstraintGoal(clause.implConstraint, values, slot), ng.chain, ng.depth + 1)]
    else if clause.ImplClause? then
      [RecImplGoalChain(ImplGoals.ImplGoal(SubstituteBound(clause.target, values), SubstituteBound(clause.traitTerm, values),
                                           map[], slot), ng.chain, ng.depth + 1)]
    else []
  }

  /** `AddRequirementsFromNorm`: one requirement for an AliasImplClause or an ImplClause, none otherwise. */
  method AddRequirementsFromNorm(ng: RecNormGoalChain, subs: TermMatch, varMap: VarMap, clause: Clause,
                                 implGoals: seq<RecImplGoalChain>, goalSeed: NameSeed)
    returns (r: seq<RecImplGoalChain>)
    requires goalSeed.Valid() && goalSeed.prefix == "$g" && BindsAll(clause, subs, varMap)
    modifies goalSeed
    ensures goalSeed.Valid() && goalSeed.value == old(goalSeed.value) + NormSlotCount(clause)
    ensures r == implGoals + NormRequirements(clause, ParamValues(clause, subs, varMap), ng, old(goalSeed.value))
    ensures forall k :: |implGoals| <= k < |r| ==> r[k].goal.resolvesTo !in old(goalSeed.issued)
  {
    r := implGoals;
    var substConstraints := ParamValues(clause, subs, varMap);
    if clause.AliasImplClause? {
      var constraint := SubstituteConstraint(clause.implConstraint, substConstraints);
      var slot := goalSeed.Next();
      var goal := ImplGoals.ImplGoal(constraint.target, constraint.traitTerm, constraint.assoc, slot);
      r := r + [RecImplGoalChain(goal, ng.chain, ng.depth + 1)];
    } else if clause.ImplClause? {
      var slot := goalSeed.Next();
      var goal := ImplGoals.ImplGoal(SubstituteBound(clause.target, substConstraints),
                                     SubstituteBound(clause.traitTerm, substConstraints), map[], slot);
      r := r + [RecImplGoalChain(goal, ng.chain, ng.depth + 1)];
    }
  }

  /**
   * A reduction adds at most one impl goal, and only for an AliasImplClause or an
   * ImplClause; it sits on the norm goal's node, one level deeper, and asks for the
   * clause's constraint or head under the parameter values.
   */
  lemma NormRequirementsShape(clause: Clause, values: map<int, Term>, ng: RecNormGoalChain, goalSeed: nat)
    ensures var reqs := NormRequirements(clause, values, ng, goalSeed);
      && |reqs| == NormSlotCount(clause)
      && (forall k :: 0 <= k < |reqs| ==>
            && reqs[k].chain == ng.chain && reqs[k].depth == ng.depth + 1
            && reqs[k].goal.resolvesTo == FreshName("$g", goalSeed + 1))
      && (clause.AliasImplClause? ==>
            var c := SubstituteConstraint(clause.implConstraint, values);
            reqs[0].goal.target == c.target && reqs[0].goal.traitTerm == c.traitTerm && reqs[0].goal.assoc == c.assoc)
      && (clause.ImplClause? ==>
            && reqs[0].goal.target == SubstituteBound(clause.target, values)
            && reqs[0].goal.traitTerm == SubstituteBound(clause.traitTerm, values)
            && reqs[0].goal.assoc == map[])
  {
  }

  // ------------------------------------------------------------------ building a candidate

  /**
   * `TryReuseExistingNorm`: when the alias was normalised before, the goal's variable
   * is equated with the cached result and nothing else is added.
   */
  function TryReuseExistingNorm(s: SolverState, ng: RecNormGoalChain, normGoals: seq<RecNormGoalChain>)
    : (r: Option<SolverState>)
    ensures r.Some? <==> ng.goal.alias in s.reuseNormGoals
  {
    if ng.goal.alias in s.reuseNormGoals then
      var eqGoals := s.eqGoals + [EqGoals.EqGoal(ResultVar(ng), s.reuseNormGoals[ng.goal.alias])];
      Some(SolverState(s.implGoals, normGoals, eqGoals, s.matched, s.clauses, s.instantiations, s.provenGoals,
                       s.reuseImplGoals, s.reuseNormGoals))
    else None
  }

  /**
   * A reused normalisation adds exactly one eq goal, `Var = cached result`, at the end,
   * and changes nothing else but the norm-goal list it is given.
   */
  lemma NormReuseFacts(s: SolverState, ng: RecNormGoalChain, normGoals: seq<RecNormGoalChain>)
    requires ng.goal.alias in s.reuseNormGoals
    ensures var r := TryReuseExistingNorm(s, ng, normGoals).value;
      && r.eqGoals[..|s.eqGoals|] == s.eqGoals && |r.eqGoals| == |s.eqGoals| + 1
      && r.eqGoals[|s.eqGoals|] == EqGoals.EqGoal(ResultVar(ng), s.reuseNormGoals[ng.goal.alias])
      && r.normGoals == normGoals && r == s.(eqGoals := r.eqGoals, normGoals := normGoals)
  {
    var r := TryReuseExistingNorm(s, ng, normGoals).value;
    assert r.eqGoals[..|s.eqGoals|] == s.eqGoals;
  }

  /** The choices the runtime makes while one norm candidate is built. */
  datatype NormBuildParams = NormBuildParams(
    parents: seq<Option<nat>>,                 // the proof-chain nodes
    goalSeed: nat,                             // `_goalSeed` before
    bindingEntries: seq<(string, Term)>)       // the enumeration of the match's bindings

  /** The solver state a fresh reduction builds, given the recorded applications `proven`. */
  function NormExpansion(s: SolverState, aliased: Term, subs: TermMatch, varMap: VarMap, clause: Clause,
                         ng: RecNormGoalChain, hoist: Normalizer, proven: map<nat, seq<ProvenGoals.ProvenGoal>>,
                         p: NormBuildParams): SolverState
    requires BindsAll(clause, subs, varMap)
  {
    var values := ParamValues(clause, subs, varMap);
    var hoisted := hoist(RemoveFirst(s.normGoals, ng), [EqGoals.EqGoal(ResultVar(ng), aliased)], Some(ng.chain), ng.depth);
    SolverState(s.implGoals + NormRequirements(clause, values, ng, p.goalSeed), hoisted.0,
                hoisted.1 + subs.lateGoals + BindingGoals(p.bindingEntries),
                s.matched, s.clauses, s.instantiations, proven, s.reuseImplGoals,
                s.reuseNormGoals[ng.goal.alias := aliased])
  }

  /** `TryAddProvenGoal` for the goal's node. */
  function AddProven(s: SolverState, subs: TermMatch, varMap: VarMap, clause: Clause, ng: RecNormGoalChain, env: Env,
                     p: NormBuildParams): (bool, map<nat, seq<ProvenGoals.ProvenGoal>>)
  {
    env.addProven(p.parents, ng.chain, s.provenGoals, clause, subs, varMap)
  }

  /** The clause reduces the alias afresh: the cycle check and the depth bound pass and nothing is cached. */
  predicate NormExpands(s: SolverState, subs: TermMatch, varMap: VarMap, clause: Clause, ng: RecNormGoalChain,
                        env: Env, p: NormBuildParams)
  {
    AddProven(s, subs, varMap, clause, ng, env, p).0 && ng.depth <= env.maxRecursion
    && ng.goal.alias !in s.reuseNormGoals
  }

  /** What `BuildNormCandidate` returns, given the runtime's choices. */
  function BuildNormOutcome(s: SolverState, aliased: Term, subs: TermMatch, varMap: VarMap, clause: Clause,
                            ng: RecNormGoalChain, env: Env, p: NormBuildParams): Candidate
    requires BindsAll(clause, subs, varMap)
  {
    var added := AddProven(s, subs, varMap, clause, ng, env, p);
    if !added.0 then InfRec
    else if ng.depth > env.maxRecursion then InfRec
    else match TryReuseExistingNorm(s, ng, RemoveFirst(s.normGoals, ng))
      case Some(r) => Live(r)
      case None => Live(NormExpansion(s, aliased, subs, varMap, clause, ng, env.hoist, added.1, p))
  }

  /** `BuildNormCandidate` */
  method BuildNormCandidate(s: SolverState, aliased: Term, subs: TermMatch, varMap: VarMap, clause: Clause,
                            ng: RecNormGoalChain, env: Env, arena: ProofChainArena, goalSeed: NameSeed)
    returns (r: Candidate, ghost p: NormBuildParams)
    requires goalSeed.Valid() && goalSeed.prefix == "$g" && BindsAll(clause, subs, varMap)
    modifies goalSeed
    ensures p.parents == arena.parents && p.goalSeed == old(goalSeed.value)
    ensures r == BuildNormOutcome(s, aliased, subs, varMap, clause, ng, env, p)
    ensures goalSeed.Valid()
    ensures NormExpands(s, subs, varMap, clause, ng, env, p) ==>
      EntriesOf(p.bindingEntries, subs.substitutions) && goalSeed.value == old(goalSeed.value) + NormSlotCount(clause)
    ensures !NormExpands(s, subs, varMap, clause, ng, env, p) ==> goalSeed.value == old(goalSeed.value)
  {
    p := NormBuildParams(arena.parents, goalSeed.value, []);
    var normGoals := RemoveFirst(s.normGoals, ng);
    var implGoals := s.implGoals;

    // infinite recursion
    var added := env.addProven(arena.parents, ng.chain, s.provenGoals, clause, subs, varMap);
    if !added.0 {
      return InfRec, p;
    }

    // possibly infinite recursion
    if ng.depth > env.maxRecursion {
      return InfRec, p;
    }

    var existing := TryReuseExistingNorm(s, ng, normGoals);
    if existing.Some? {
      return Live(existing.value), p;
    }

    var eqGoals := [EqGoals.EqGoal(ResultVar(ng), aliased)];
    var hoisted := env.hoist(normGoals, eqGoals, Some(ng.chain), ng.depth);
    normGoals, eqGoals := hoisted.0, hoisted.1;
    eqGoals := eqGoals + subs.lateGoals;
    ghost var entries;
    eqGoals, entries := AddSubstitutionsAsEqGoals(subs, eqGoals);
    implGoals := AddRequirementsFromNorm(ng, subs, varMap, clause, implGoals, goalSeed);
    var reuseNorm := s.reuseNormGoals[ng.goal.alias := aliased];
    p := p.(bindingEntries := entries);
    r := Live(SolverState(implGoals, normGoals, eqGoals, s.matched, s.clauses, s.instantiations, added.1,
                          s.reuseImplGoals, reuseNorm));
  }

  /**
   * What a built norm candidate is: flagged `_infRec` exactly when the cycle check or
   * the depth bound refuses, a reuse when the alias is cached, and a fresh reduction
   * otherwise.
   */
  lemma BuildNormCases(s: SolverState, aliased: Term, subs: TermMatch, varMap: VarMap, clause: Clause,
                       ng: RecNormGoalChain, env: Env, p: NormBuildParams)
    requires BindsAll(clause, subs, varMap)
    ensures BuildNormOutcome(s, aliased, subs, varMap, clause, ng, env, p).InfRec? <==>
      !AddProven(s, subs, varMap, clause, ng, env, p).0 || ng.depth > env.maxRecursion
    ensures AddProven(s, subs, varMap, clause, ng, env, p).0 && ng.depth <= env.maxRecursion
            && ng.goal.alias in s.reuseNormGoals ==>
      BuildNormOutcome(s, aliased, subs, varMap, clause, ng, env, p)
        == Live(TryReuseExistingNorm(s, ng, RemoveFirst(s.normGoals, ng)).value)
    ensures NormExpands(s, subs, varMap, clause, ng, env, p) ==>
      BuildNormOutcome(s, aliased, subs, varMap, clause, ng, env, p)
        == Live(NormExpansion(s, aliased, subs, varMap, clause, ng, env.hoist,
                              AddProven(s, subs, varMap, clause, ng, env, p).1, p))
  {
  }

  /**
   * What a fresh reduction records: the alias is cached with its result, the clause's
   * requirement is appended to the impl goals, the applications are the ones
   * `TryAddProvenGoal` left, and the instantiations and the impl reuse cache are left
   * as they were.
   */
  lemma NormExpansionRecords(s: SolverState, aliased: Term, subs: TermMatch, varMap: VarMap, clause: Clause,
                             ng: RecNormGoalChain, hoist: Normalizer, proven: map<nat, seq<ProvenGoals.ProvenGoal>>,
                             p: NormBuildParams)
    requires BindsAll(clause, subs, varMap)
    ensures var c := NormExpansion(s, aliased, subs, varMap, clause, ng, hoist, proven, p);
      && c.reuseNormGoals.Keys == s.reuseNormGoals.Keys + {ng.goal.alias}
      && c.reuseNormGoals[ng.goal.alias] == aliased
      && (forall a :: a in s.reuseNormGoals && a != ng.goal.alias ==> c.reuseNormGoals[a] == s.reuseNormGoals[a])
      && c.implGoals[..|s.implGoals|] == s.implGoals
      && |c.implGoals| == |s.implGoals| + NormSlotCount(clause)
      && c.provenGoals == proven
      && c.instantiations == s.instantiations && c.reuseImplGoals == s.reuseImplGoals
      && c.matched == s.matched && c.clauses == s.clauses
  {
    var c := NormExpansion(s, aliased, subs, varMap, clause, ng, hoist, proven, p);
    var values := ParamValues(clause, subs, varMap);
    NormRequirementsShape(clause, values, ng, p.goalSeed);
    assert c.implGoals[..|s.implGoals|] == s.implGoals;
  }

  /** The eq goals of a fresh reduction hold the late goals of the match and a `?x = value` goal for every binding. */
  lemma NormExpansionEqGoals(s: SolverState, aliased: Term, subs: TermMatch, varMap: VarMap, clause: Clause,
                             ng: RecNormGoalChain, hoist: Normalizer, proven: map<nat, seq<ProvenGoals.ProvenGoal>>,
                             p: NormBuildParams)
    requires BindsAll(clause, subs, varMap) && EntriesOf(p.bindingEntries, subs.substitutions)
    ensures var c := NormExpansion(s, aliased, subs, varMap, clause, ng, hoist, proven, p);
      && (forall i :: 0 <= i < |subs.lateGoals| ==> subs.lateGoals[i] in c.eqGoals)
      && (forall k :: k in subs.substitutions ==> EqGoals.EqGoal(FreeVar(k), subs.substitutions[k]) in c.eqGoals)
  {
    var hoisted := hoist(RemoveFirst(s.normGoals, ng), [EqGoals.EqGoal(ResultVar(ng), aliased)], Some(ng.chain), ng.depth);
    assert NormExpansion(s, aliased, subs, varMap, clause, ng, hoist, proven, p).eqGoals
        == hoisted.1 + subs.lateGoals + BindingGoals(p.bindingEntries);
    BindingTail(hoisted.1, subs.lateGoals, subs.substitutions, p.bindingEntries);
  }

  /** A list that ends with late goals and the binding goals of an enumeration holds them all, one goal per binding. */
  lemma BindingTail(front: seq<EqGoals.EqGoal>, late: seq<EqGoals.EqGoal>, b: Bindings, entries: seq<(string, Term)>)
    requires EntriesOf(entries, b)
    ensures forall i :: 0 <= i < |late| ==> late[i] in front + late + BindingGoals(entries)
    ensures forall k :: k in b ==> EqGoals.EqGoal(FreeVar(k), b[k]) in front + late + BindingGoals(entries)
  {
    var bindings := BindingGoals(entries);
    var eqs := front + late + bindings;
    forall i | 0 <= i < |late| ensures late[i] in eqs {
      assert eqs[|front| + i] == late[i];
    }
    forall k | k in b ensures EqGoals.EqGoal(FreeVar(k), b[k]) in eqs {
      var i :| 0 <= i < |entries| && entries[i].0 == k;
      assert eqs[|front| + |late| + i] == bindings[i];
    }
  }

  /**
   * A fresh reduction keeps the invariants of the search, provided the norm goal's node
   * exists and `TryAddProvenGoal` kept the recorded arguments keyed by type parameters
   * and on existing nodes.
   */
  lemma NormExpansionConsistent(s: SolverState, aliased: Term, subs: TermMatch, varMap: VarMap, clause: Clause,
                                ng: RecNormGoalChain, hoist: Normalizer, proven: map<nat, seq<ProvenGoals.ProvenGoal>>,
                                p: NormBuildParams, n: nat)
    requires BindsAll(clause, subs, varMap)
    requires Consistent(s, n) && ng.chain < n
    requires ProvenKeys(proven) && forall j :: j in proven ==> j < n
    ensures Consistent(NormExpansion(s, aliased, subs, varMap, clause, ng, hoist, proven, p), n)
  {
    var values := ParamValues(clause, subs, varMap);
    var reqs := NormRequirements(clause, values, ng, p.goalSeed);
    NormRequirementsShape(clause, values, ng, p.goalSeed);
    AppendBelow(s.implGoals, reqs, n);
  }

  /** A reused normalisation keeps the invariants of the search. */
  lemma NormReuseConsistent(s: SolverState, ng: RecNormGoalChain, n: nat)
    requires Consistent(s, n) && ng.goal.alias in s.reuseNormGoals
    ensures Consistent(TryReuseExistingNorm(s, ng, RemoveFirst(s.normGoals, ng)).value, n)
  {
    NormReuseFacts(s, ng, RemoveFirst(s.normGoals, ng));
  }

  // ------------------------------------------------------------------ the irreducible fallback

  /**
   * The candidate yielded last: the goal's variable is equated with the irreducible
   * alias, and the alias's target must implement its trait, as a new impl goal in slot
   * `$g<goalSeed+1>` on the new node `node`, one level deeper.
   */
  function Fallback(s: SolverState, ng: RecNormGoalChain, goalSeed: nat, node: nat): SolverState {
    var a := ng.goal.alias;
    var goal := ImplGoals.ImplGoal(a.target, a.traitTerm, map[], FreshName("$g", goalSeed + 1));
    SolverState(s.implGoals + [RecImplGoalChain(goal, node, ng.depth + 1)], RemoveFirst(s.normGoals, ng),
                s.eqGoals + [EqGoals.EqGoal(ResultVar(ng), IrAlias(a.target, a.traitTerm, a.name))],
                s.matched, s.clauses, s.instantiations, s.provenGoals, s.reuseImplGoals, s.reuseNormGoals)
  }

  /** The last block of `GetNormCandidates`: the irreducible alias, on a new child of the goal's node. */
  method AddFallback(s: SolverState, ng: RecNormGoalChain, arena: ProofChainArena, goalSeed: NameSeed)
    returns (r: SolverState)
    requires arena.Valid() && ng.chain < |arena.parents| && goalSeed.Valid() && goalSeed.prefix == "$g"
    modifies arena, goalSeed
    ensures arena.Valid() && arena.parents == old(arena.parents) + [Some(ng.chain)]
    ensures goalSeed.Valid() && goalSeed.value == old(goalSeed.value) + 1
    ensures r == Fallback(s, ng, old(goalSeed.value), |old(arena.parents)|)
  {
    var normGoals := RemoveFirst(s.normGoals, ng);
    var a := ng.goal.alias;
    var eqGoals := s.eqGoals + [EqGoals.EqGoal(ResultVar(ng), IrAlias(a.target, a.traitTerm, a.name))];
    var slot := goalSeed.Next();
    var node := arena.New(Some(ng.chain));
    var implGoals := s.implGoals + [RecImplGoalChain(ImplGoals.ImplGoal(a.target, a.traitTerm, map[], slot), node,
                                                     ng.depth + 1)];
    r := SolverState(implGoals, normGoals, eqGoals, s.matched, s.clauses, s.instantiations, s.provenGoals,
                     s.reuseImplGoals, s.reuseNormGoals);
  }

  /**
   * The fallback discharges one copy of the norm goal, adds one eq goal
   * `Var = IrAlias(Target, Trait, Name)` and one impl goal `Target: Trait` without
   * associated constraints, and changes nothing else.
   */
  lemma FallbackFacts(s: SolverState, ng: RecNormGoalChain, goalSeed: nat, node: nat)
    requires ng in s.normGoals
    ensures var r := Fallback(s, ng, goalSeed, node);
      var a := ng.goal.alias;
      && multiset(r.normGoals) == multiset(s.normGoals) - multiset{ng}
      && r.eqGoals[..|s.eqGoals|] == s.eqGoals && |r.eqGoals| == |s.eqGoals| + 1
      && r.eqGoals[|s.eqGoals|].left == ResultVar(ng)
      && r.eqGoals[|s.eqGoals|].right.IrAlias? && r.eqGoals[|s.eqGoals|].right.name == a.name
      && r.eqGoals[|s.eqGoals|].right.target == a.target && r.eqGoals[|s.eqGoals|].right.traitTerm == a.traitTerm
      && r.implGoals[..|s.implGoals|] == s.implGoals && |r.implGoals| == |s.implGoals| + 1
      && r.implGoals[|s.implGoals|].goal.target == a.target && r.implGoals[|s.implGoals|].goal.traitTerm == a.traitTerm
      && r.implGoals[|s.implGoals|].goal.assoc == map[]
      && r.implGoals[|s.implGoals|].chain == node && r.implGoals[|s.implGoals|].depth == ng.depth + 1
      && r == s.(implGoals := r.implGoals, normGoals := r.normGoals, eqGoals := r.eqGoals)
  {
    var r := Fallback(s, ng, goalSeed, node);
    assert r.eqGoals[..|s.eqGoals|] == s.eqGoals;
    assert r.implGoals[..|s.implGoals|] == s.implGoals;
  }

  /** The fallback keeps the invariants of the search, with the node it creates added. */
  lemma FallbackConsistent(s: SolverState, ng: RecNormGoalChain, goalSeed: nat, n: nat)
    requires Consistent(s, n)
    ensures Consistent(Fallback(s, ng, goalSeed, n), n + 1)
  {
    var r := Fallback(s, ng, goalSeed, n);
    forall i | 0 <= i < |r.implGoals| ensures r.implGoals[i].chain < n + 1 {
      if i < |s.implGoals| {
        assert r.implGoals[i] == s.implGoals[i];
      }
    }
  }

  // ------------------------------------------------------------------ candidate generation

  /** The three `foreach` loops of `GetNormCandidates`, in the order they run. */
  datatype Scan = AliasImplScan | ImplScan | AssocTyScan

  /**
   * The clauses a loop tries: in the first, AliasImplClauses of the alias's name; in
   * the second, ImplClauses that constrain the alias's name; in the third, when the
   * alias's target is an IrAlias, AssocTyClauses that constrain the alias's name and
   * are named like the IrAlias.
   */
  predicate NormEligible(scan: Scan, goal: NormGoals.NormGoal, clause: Clause) {
    match scan
    case AliasImplScan => clause.AliasImplClause? && clause.aliasName == goal.alias.name
    case ImplScan => clause.ImplClause? && goal.alias.name in clause.assoc
    case AssocTyScan =>
      && goal.alias.target.IrAlias? && clause.AssocTyClause? && goal.alias.name in clause.assoc
      && clause.aliasName == goal.alias.target.name
  }

  /** The goal's side of the match: the IrAlias's trait and the alias's trait, or the alias's target and trait. */
  function NormGoalHead(scan: Scan, goal: NormGoals.NormGoal): (Term, Term) {
    if scan == AssocTyScan && goal.alias.target.IrAlias? then (goal.alias.target.traitTerm, goal.alias.traitTerm)
    else (goal.alias.target, goal.alias.traitTerm)
  }

  /** `Term.TryMatch(new App("S", [a, b]), new App("S", [c, d]))`, with the corrected unifier. */
  function NormHeadMatch(scan: Scan, clause: Clause, varMap: VarMap, goal: NormGoals.NormGoal): Option<TermMatch> {
    var ch := ClauseHead(clause, varMap);
    var gh := NormGoalHead(scan, goal);
    Unifier.MatchResult(App("S", [ch.0, ch.1]), App("S", [gh.0, gh.1]), Unifier.Corrected)
  }

  /** What the alias reduces to: the clause's `Aliased`, or its associated constraint of the alias's name, substituted. */
  function Aliased(clause: Clause, goal: NormGoals.NormGoal, values: map<int, Term>): Term
    requires clause.AliasImplClause? || ((clause.ImplClause? || clause.AssocTyClause?) && goal.alias.name in clause.assoc)
  {
    if clause.AliasImplClause? then SubstituteBound(clause.aliased, values)
    else SubstituteBound(clause.assoc[goal.alias.name], values)
  }

  /** The choices the runtime makes while one clause is tried. */
  datatype NormAttemptParams = NormAttemptParams(varMap: VarMap, build: NormBuildParams)

  /** The candidate one clause yields: none when the heads do not match or leave a parameter unbound. */
  function NormAttempt(s: SolverState, ng: RecNormGoalChain, scan: Scan, clause: Clause, env: Env,
                       a: NormAttemptParams): Option<Candidate>
    requires NormEligible(scan, ng.goal, clause)
  {
    var varMap := a.varMap;
    match NormHeadMatch(scan, clause, varMap, ng.goal)
    case None => None
    case Some(subs) =>
      if BindsAll(clause, subs, varMap) then
        Some(BuildNormOutcome(s, Aliased(clause, ng.goal, ParamValues(clause, subs, varMap)), subs, varMap, clause,
                              ng, env, a.build))
      else None
  }

  /**
   * A candidate comes from a clause whose freshened head the corrected matcher unifies
   * with the alias, once the postponed alias equations of the match hold; a fresh
   * reduction equates the goal's variable with the clause's substituted right-hand
   * side.
   */
  lemma NormAttemptUnifies(s: SolverState, ng: RecNormGoalChain, scan: Scan, clause: Clause, env: Env,
                           a: NormAttemptParams)
    requires NormEligible(scan, ng.goal, clause) && NormAttempt(s, ng, scan, clause, env, a).Some?
    ensures NormHeadMatch(scan, clause, a.varMap, ng.goal).Some?
    ensures var m := NormHeadMatch(scan, clause, a.varMap, ng.goal).value;
      var ch := ClauseHead(clause, a.varMap);
      var gh := NormGoalHead(scan, ng.goal);
      (forall i :: 0 <= i < |m.lateGoals| ==> m.lateGoals[i].left == m.lateGoals[i].right) ==>
        Substitute(ch.0, m.substitutions) == Substitute(gh.0, m.substitutions)
        && Substitute(ch.1, m.substitutions) == Substitute(gh.1, m.substitutions)
  {
    var m := NormHeadMatch(scan, clause, a.varMap, ng.goal).value;
    var ch := ClauseHead(clause, a.varMap);
    var gh := NormGoalHead(scan, ng.goal);
    if forall i :: 0 <= i < |m.lateGoals| ==> m.lateGoals[i].left == m.lateGoals[i].right {
      UnifierFacts.MatchSound(App("S", [ch.0, ch.1]), App("S", [gh.0, gh.1]), m);
      SubstituteShape(App("S", [ch.0, ch.1]), m.substitutions);
      SubstituteShape(App("S", [gh.0, gh.1]), m.substitutions);
      assert SubstituteArgs([ch.0, ch.1], m.substitutions) == SubstituteArgs([gh.0, gh.1], m.substitutions);
      assert SubstituteArgs([ch.0, ch.1], m.substitutions)[0] == Substitute(ch.0, m.substitutions);
      assert SubstituteArgs([ch.0, ch.1], m.substitutions)[1] == Substitute(ch.1, m.substitutions);
    }
  }

  /** One clause of a loop of `GetNormCandidates`: fresh variables, `TryMatch`, then `BuildNormCandidate`. */
  method TryNormClause(s: SolverState, ng: RecNormGoalChain, scan: Scan, clause: Clause, env: Env,
                       arena: ProofChainArena, varSeed: NameSeed, goalSeed: NameSeed)
    returns (r: Option<Candidate>, ghost a: NormAttemptParams)
    requires varSeed.Valid() && varSeed.prefix == "?" && goalSeed.Valid() && goalSeed.prefix == "$g"
    requires NormEligible(scan, ng.goal, clause) && WellFormed(clause)
    modifies varSeed, goalSeed
    ensures a.varMap == FreshVarMap(TyParams(clause), old(varSeed.value))
    ensures a.build.parents == arena.parents && a.build.goalSeed == old(goalSeed.value)
    ensures r == NormAttempt(s, ng, scan, clause, env, a)
    ensures varSeed.Valid() && goalSeed.Valid()
    ensures varSeed.value == old(varSeed.value) + |TyParams(clause)| && goalSeed.value >= old(goalSeed.value)
  {
    var newVars := FreshVars(TyParams(clause), varSeed);
    var ch := ClauseHead(clause, newVars);
    var gh := NormGoalHead(scan, ng.goal);
    var subs := TermMatching.TryMatch(App("S", [ch.0, ch.1]), App("S", [gh.0, gh.1]), Unifier.Corrected);
    a := NormAttemptParams(newVars, NormBuildParams(arena.parents, goalSeed.value, []));
    if subs.None? || !BindsAll(clause, subs.value, newVars) {
      return None, a;
    }
    var aliased := Aliased(clause, ng.goal, ParamValues(clause, subs.value, newVars));
    var candidate;
    ghost var p;
    candidate, p := BuildNormCandidate(s, aliased, subs.value, newVars, clause, ng, env, arena, goalSeed);
    a := NormAttemptParams(newVars, p);
    r := Some(candidate);
  }

  /** The clauses, below `n`, that a loop tries, tagged with the loop, in clause order. */
  function ScanOrder(clauses: seq<Clause>, scan: Scan, goal: NormGoals.NormGoal, n: nat): (r: seq<(Scan, nat)>)
    requires n <= |clauses|
    ensures |r| <= n
  {
    if n == 0 then []
    else ScanOrder(clauses, scan, goal, n - 1) + (if NormEligible(scan, goal, clauses[n - 1]) then [(scan, n - 1)] else [])
  }

  /** Every clause a loop tries is eligible for it, and the clauses come in clause order. */
  lemma {:induction false} ScanOrderSound(clauses: seq<Clause>, scan: Scan, goal: NormGoals.NormGoal, n: nat)
    requires n <= |clauses|
    ensures forall k :: 0 <= k < |ScanOrder(clauses, scan, goal, n)| ==>
      var t := ScanOrder(clauses, scan, goal, n)[k]; t.0 == scan && t.1 < n && NormEligible(scan, goal, clauses[t.1])
    ensures forall k, l :: 0 <= k < l < |ScanOrder(clauses, scan, goal, n)| ==>
      ScanOrder(clauses, scan, goal, n)[k].1 < ScanOrder(clauses, scan, goal, n)[l].1
  {
    if n > 0 {
      ScanOrderSound(clauses, scan, goal, n - 1);
      var prev := ScanOrder(clauses, scan, goal, n - 1);
      assert ScanOrder(clauses, scan, goal, n)[..|prev|] == prev;
    }
  }

  /** Every clause eligible for a loop is tried by it. */
  lemma {:induction false} ScanOrderComplete(clauses: seq<Clause>, scan: Scan, goal: NormGoals.NormGoal, n: nat)
    requires n <= |clauses|
    ensures forall j :: 0 <= j < n && NormEligible(scan, goal, clauses[j]) ==> (scan, j) in ScanOrder(clauses, scan, goal, n)
  {
    if n > 0 {
      ScanOrderComplete(clauses, scan, goal, n - 1);
      var prev := ScanOrder(clauses, scan, goal, n - 1);
      var r := ScanOrder(clauses, scan, goal, n);
      assert r[..|prev|] == prev;
      forall j | 0 <= j < n && NormEligible(scan, goal, clauses[j]) ensures (scan, j) in r {
        if j < n - 1 {
          var k :| 0 <= k < |prev| && prev[k] == (scan, j);
          assert r[k] == (scan, j);
        } else {
          assert r[|r| - 1] == (scan, j);
        }
      }
    }
  }

  /** Without an IrAlias target, the third loop tries nothing. */
  lemma {:induction false} NoAssocTyScan(clauses: seq<Clause>, goal: NormGoals.NormGoal, n: nat)
    requires n <= |clauses| && !goal.alias.target.IrAlias?
    ensures ScanOrder(clauses, AssocTyScan, goal, n) == []
  {
    if n > 0 {
      NoAssocTyScan(clauses, goal, n - 1);
    }
  }

  /** All the clauses `GetNormCandidates` tries, in the order it tries them. */
  function NormOrder(clauses: seq<Clause>, goal: NormGoals.NormGoal): seq<(Scan, nat)> {
    ScanOrder(clauses, AliasImplScan, goal, |clauses|) + ScanOrder(clauses, ImplScan, goal, |clauses|)
    + ScanOrder(clauses, AssocTyScan, goal, |clauses|)
  }

  /** Outcome `k` is what trying clause `tried[k].1` in loop `tried[k].0` with the choices `params[k]` yields. */
  ghost predicate NormTries(s: SolverState, ng: RecNormGoalChain, env: Env, tried: seq<(Scan, nat)>,
                            params: seq<NormAttemptParams>, outcomes: seq<Option<Candidate>>)
  {
    && |params| == |tried| && |outcomes| == |tried|
    && forall k :: 0 <= k < |tried| ==>
         && tried[k].1 < |s.clauses| && NormEligible(tried[k].0, ng.goal, s.clauses[tried[k].1])
         && outcomes[k] == NormAttempt(s, ng, tried[k].0, s.clauses[tried[k].1], env, params[k])
  }

  /** Each clause a loop tries is well formed. */
  ghost predicate ScanReady(s: SolverState, ng: RecNormGoalChain, scan: Scan) {
    forall i :: 0 <= i < |s.clauses| && NormEligible(scan, ng.goal, s.clauses[i]) ==> WellFormed(s.clauses[i])
  }

  /** One turn of a loop of `GetNormCandidates`: clause `i` is tried when it is eligible. */
  method NormTryNext(s: SolverState, ng: RecNormGoalChain, scan: Scan, env: Env, arena: ProofChainArena,
                     varSeed: NameSeed, goalSeed: NameSeed, i: nat, ghost before: seq<(Scan, nat)>,
                     ghost tried: seq<(Scan, nat)>, ghost params: seq<NormAttemptParams>,
                     results: seq<Option<Candidate>>)
    returns (ghost tried': seq<(Scan, nat)>, ghost params': seq<NormAttemptParams>, results': seq<Option<Candidate>>)
    requires varSeed.Valid() && varSeed.prefix == "?" && goalSeed.Valid() && goalSeed.prefix == "$g"
    requires i < |s.clauses| && ScanReady(s, ng, scan)
    requires tried == before + ScanOrder(s.clauses, scan, ng.goal, i) && NormTries(s, ng, env, tried, params, results)
    modifies varSeed, goalSeed
    ensures tried' == before + ScanOrder(s.clauses, scan, ng.goal, i + 1) && NormTries(s, ng, env, tried', params', results')
    ensures varSeed.Valid() && goalSeed.Valid()
  {
    tried', params', results' := tried, params, results;
    var clause := s.clauses[i];
    if NormEligible(scan, ng.goal, clause) {
      var r;
      ghost var a;
      r, a := TryNormClause(s, ng, scan, clause, env, arena, varSeed, goalSeed);
      tried', params', results' := tried + [(scan, i)], params + [a], results + [r];
    }
  }

  /** One `foreach` of `GetNormCandidates`, over every clause. */
  method ScanClauses(s: SolverState, ng: RecNormGoalChain, scan: Scan, env: Env, arena: ProofChainArena,
                     varSeed: NameSeed, goalSeed: NameSeed, ghost tried: seq<(Scan, nat)>,
                     ghost params: seq<NormAttemptParams>, results: seq<Option<Candidate>>)
    returns (ghost tried': seq<(Scan, nat)>, ghost params': seq<NormAttemptParams>, results': seq<Option<Candidate>>)
    requires varSeed.Valid() && varSeed.prefix == "?" && goalSeed.Valid() && goalSeed.prefix == "$g"
    requires ScanReady(s, ng, scan) && NormTries(s, ng, env, tried, params, results)
    modifies varSeed, goalSeed
    ensures tried' == tried + ScanOrder(s.clauses, scan, ng.goal, |s.clauses|) && NormTries(s, ng, env, tried', params', results')
    ensures varSeed.Valid() && goalSeed.Valid()
  {
    tried', params', results' := tried, params, results;
    assert tried' == tried + ScanOrder(s.clauses, scan, ng.goal, 0);
    for i := 0 to |s.clauses|
      invariant varSeed.Valid() && varSeed.prefix == "?" && goalSeed.Valid() && goalSeed.prefix == "$g"
      invariant tried' == tried + ScanOrder(s.clauses, scan, ng.goal, i)
      invariant NormTries(s, ng, env, tried', params', results')
    {
      tried', params', results' := NormTryNext(s, ng, scan, env, arena, varSeed, goalSeed, i, tried, tried', params', results');
    }
  }

  /**
   * `GetNormCandidates`: the AliasImplClauses, then the ImplClauses, then (for an
   * IrAlias target) the AssocTyClauses are tried in clause order, each match that
   * binds every parameter yields its candidate, and the irreducible fallback is
   * always yielded, last.  Only the fallback creates a proof-chain node.
   */
  method GetNormCandidates(s: SolverState, ng: RecNormGoalChain, env: Env, arena: ProofChainArena,
                           varSeed: NameSeed, goalSeed: NameSeed)
    returns (cands: seq<Candidate>, ghost tried: seq<(Scan, nat)>, ghost params: seq<NormAttemptParams>,
             ghost outcomes: seq<Option<Candidate>>, ghost fallbackSeed: nat)
    requires arena.Valid() && ng.chain < |arena.parents|
    requires varSeed.Valid() && varSeed.prefix == "?" && goalSeed.Valid() && goalSeed.prefix == "$g"
    requires ScanReady(s, ng, AliasImplScan) && ScanReady(s, ng, ImplScan) && ScanReady(s, ng, AssocTyScan)
    modifies arena, varSeed, goalSeed
    ensures tried == NormOrder(s.clauses, ng.goal) && NormTries(s, ng, env, tried, params, outcomes)
    ensures cands == Somes(outcomes) + [Live(Fallback(s, ng, fallbackSeed, |old(arena.parents)|))]
    ensures arena.Valid() && arena.parents == old(arena.parents) + [Some(ng.chain)]
    ensures varSeed.Valid() && goalSeed.Valid() && goalSeed.value == fallbackSeed + 1
  {
    var n := |s.clauses|;
    var results: seq<Option<Candidate>> := [];
    tried, params := [], [];
    tried, params, results := ScanClauses(s, ng, AliasImplScan, env, arena, varSeed, goalSeed, tried, params, results);
    assert tried == ScanOrder(s.clauses, AliasImplScan, ng.goal, n);
    tried, params, results := ScanClauses(s, ng, ImplScan, env, arena, varSeed, goalSeed, tried, params, results);
    ghost var upToImpl := tried;
    if ng.goal.alias.target.IrAlias? {
      tried, params, results := ScanClauses(s, ng, AssocTyScan, env, arena, varSeed, goalSeed, tried, params, results);
    } else {
      NoAssocTyScan(s.clauses, ng.goal, n);
      assert tried == upToImpl + ScanOrder(s.clauses, AssocTyScan, ng.goal, n);
    }
    assert tried == upToImpl + ScanOrder(s.clauses, AssocTyScan, ng.goal, n);
    fallbackSeed := goalSeed.value;
    var last := AddFallback(s, ng, arena, goalSeed);
    outcomes := results;
    cands := Somes(results) + [Live(last)];
  }
}

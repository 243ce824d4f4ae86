/**
 * The eq-goal part of a step of the current engine (`Solver_EqGoals.cs`): draining the
 * equation goals into the bindings found so far, and then rewriting every pending goal,
 * every recorded clause application and every instantiation with those bindings.
 *
 * The unifier and the merge used here are the corrected ones (`Unifier.Corrected`,
 * `TermMatches.MergeCorrected`).  The code as written is modelled where they are
 * defined; `AsWrittenDrainLosesBinding` shows what its merge changes in a drain.
 */
module SolverEqGoals {
  import opened Wrappers
  import opened Terms
  import opened Substitution
  import opened TermMatches
  import opened SolverStates
  import EqGoals
  import ImplGoals
  import NormGoals
  import ProvenGoals
  import Instantiations
  import Unifier
  import UnifierFacts
  import TermMatching
  import Clauses

  type EqGoal = EqGoals.EqGoal

  // ------------------------------------------------------------------ draining

  /**
   * How `ProcessEquationGoals` ends: `true` (`Drained`), `false` (`Failed`), the
   * `ArgumentOutOfRangeException` of `_eqGoals[^1]` on a list the hoisting emptied
   * (`Thrown`), or goals still pending when the fuel of the model runs out.
   */
  datatype DrainStatus = Drained | Failed | Thrown | Pending

  /** The status together with the three fields the loop writes. */
  datatype DrainState = DrainState(status: DrainStatus, normGoals: seq<RecNormGoalChain>, eqGoals: seq<EqGoal>,
                                   matched: TermMatch)

  /** `Term.TryMatch` on the two sides of the goal, each rewritten with the bindings found so far. */
  function MatchGoal(g: EqGoal, matched: TermMatch): Option<TermMatch> {
    Unifier.MatchResult(SubstituteMatch(g.left, matched), SubstituteMatch(g.right, matched), Unifier.Corrected)
  }

  /** `_match.Merge(match)`, with the receiver's bindings kept. */
  function MergeMatch(m: TermMatch, other: TermMatch): TermMatch {
    TermMatch(Merged(m.substitutions, other.substitutions), m.lateGoals + other.lateGoals)
  }

  /**
   * The eq goals `[?a = str, ?b = bool]` drained from no bindings.  The loop pops
   * `?b = bool` first, which binds `?b := bool`; it then pops `?a = str`, rewritten with
   * that binding, which binds `?a := str`, in either variant of the unifier.  `Merge` as
   * written (`TermMatches.Merge`) yields the argument's bindings, so the drain as written
   * ends with the second match's bindings, `?a := str` alone: the binding of `?b` is lost.
   * `MergeMatch` ends with both.
   */
  lemma AsWrittenDrainLosesBinding(v: Unifier.Variant)
    ensures var strTy := App("str", []);
            var boolTy := App("bool", []);
            var first := TermMatch(map["b" := boolTy], []);
            Unifier.MatchResult(SubstituteMatch(FreeVar("b"), Empty), SubstituteMatch(boolTy, Empty), v) == Some(first)
            && Unifier.MatchResult(SubstituteMatch(FreeVar("a"), first), SubstituteMatch(strTy, first), v)
               == Some(TermMatch(map["a" := strTy], []))
            && "b" !in map["a" := strTy]
            && MergeMatch(MergeMatch(Empty, first), TermMatch(map["a" := strTy], [])).substitutions
               == map["b" := boolTy, "a" := strTy]
  {
    var strTy := App("str", []);
    var boolTy := App("bool", []);
    var first := TermMatch(map["b" := boolTy], []);
    SubstituteMatchFacts(FreeVar("b"), Empty, []);
    SubstituteMatchFacts(boolTy, Empty, []);
    BindsAlone(v, "b", boolTy);
    assert SubstituteMatch(FreeVar("a"), first) == FreeVar("a");
    assert SubstituteMatch(strTy, first) == strTy;
    BindsAlone(v, "a", strTy);
    assert Merged(map[], map["b" := boolTy]) == map["b" := boolTy];
    SubstituteUnmapped(boolTy, map["a" := strTy]);
    assert Merged(map["b" := boolTy], map["a" := strTy]) == map["b" := boolTy, "a" := strTy];
  }

  /** A variable against a ground constructor without arguments binds it to that constructor and to nothing else. */
  lemma BindsAlone(v: Unifier.Variant, x: string, c: Term)
    requires c.App? && c.args == []
    ensures Unifier.MatchResult(FreeVar(x), c, v) == Some(TermMatch(map[x := c], []))
  {
    var w1 := Unifier.Init(FreeVar(x), c);
    var w2 := Unifier.Worklist(map[x := c], [], []);
    assert w1.stack[..0] == [] && Unifier.SubstPairs([], map[x := c]) == [];
    assert !Any(c, KFreeVar, IsVar(x));
    assert Unifier.SubstituteValues(map[], x, c) == map[];
    assert Unifier.Step(w1, v) == Some(w2);
    assert Unifier.Solve(w2, v) == Some((map[x := c], []));
    assert EqGoals.SubstituteAll([], map[x := c]) == [];
  }

  /**
   * One turn of `while (_eqGoals.Count != 0)`: hoist the aliases out of the goals
   * (`CreateNormalizationGoals(_normGoals, _eqGoals, null, 0)`), pop the last goal,
   * unify its two sides, merge the match into the bindings, queue the late goals and
   * purge them from the bindings.  `Pending` means the loop goes on.
   */
  function DrainTurn(hoist: Normalizer, normGoals: seq<RecNormGoalChain>, eqGoals: seq<EqGoal>, matched: TermMatch)
    : DrainState
  {
    var hoisted := hoist(normGoals, eqGoals, None, 0);
    if hoisted.1 == [] then DrainState(Thrown, hoisted.0, hoisted.1, matched)
    else
      var n := |hoisted.1| - 1;
      match MatchGoal(hoisted.1[n], matched)
      case None => DrainState(Failed, hoisted.0, hoisted.1[..n], matched)
      case Some(mm) =>
        var merged := MergeMatch(matched, mm);
        DrainState(Pending, hoisted.0, hoisted.1[..n] + merged.lateGoals, PurgeGoals(merged))
  }

  /** The loop run for at most `fuel` turns. */
  function Drain(hoist: Normalizer, normGoals: seq<RecNormGoalChain>, eqGoals: seq<EqGoal>, matched: TermMatch,
                 fuel: nat): DrainState
    decreases fuel
  {
    if eqGoals == [] then DrainState(Drained, normGoals, eqGoals, matched)
    else if fuel == 0 then DrainState(Pending, normGoals, eqGoals, matched)
    else
      var t := DrainTurn(hoist, normGoals, eqGoals, matched);
      if t.status == Pending then Drain(hoist, t.normGoals, t.eqGoals, t.matched, fuel - 1) else t
  }

  /** A drain that has goals and fuel is its first turn followed by the rest. */
  lemma DrainNext(hoist: Normalizer, normGoals: seq<RecNormGoalChain>, eqGoals: seq<EqGoal>, matched: TermMatch,
                  fuel: nat)
    requires eqGoals != [] && fuel > 0
    ensures var t := DrainTurn(hoist, normGoals, eqGoals, matched);
            Drain(hoist, normGoals, eqGoals, matched, fuel)
            == if t.status == Pending then Drain(hoist, t.normGoals, t.eqGoals, t.matched, fuel - 1) else t
  {
  }

  /**
   * A drain that reports `true` leaves no eq goal; with no eq goal to begin with it
   * changes nothing and does not hoist.
   */
  lemma {:induction false} DrainEnds(hoist: Normalizer, normGoals: seq<RecNormGoalChain>, eqGoals: seq<EqGoal>,
                                     matched: TermMatch, fuel: nat)
    ensures Drain(hoist, normGoals, eqGoals, matched, fuel).status == Drained ==>
      Drain(hoist, normGoals, eqGoals, matched, fuel).eqGoals == []
    ensures eqGoals == [] ==> Drain(hoist, normGoals, eqGoals, matched, fuel) == DrainState(Drained, normGoals, eqGoals, matched)
    decreases fuel
  {
    if eqGoals != [] && fuel > 0 {
      var t := DrainTurn(hoist, normGoals, eqGoals, matched);
      DrainNext(hoist, normGoals, eqGoals, matched, fuel);
      if t.status == Pending {
        DrainEnds(hoist, t.normGoals, t.eqGoals, t.matched, fuel - 1);
      }
    }
  }

  // ------------------------------------------------------------ what a turn keeps

  /**
   * Unifying a goal rewritten with solved bindings, and merging the result, keeps the
   * bindings solved, and the merged bindings act as the old ones followed by the new.
   */
  lemma MergeStep(a: Bindings, g: EqGoal, mm: TermMatch)
    requires Idempotent(a)
    requires Unifier.MatchResult(Substitute(g.left, a), Substitute(g.right, a), Unifier.Corrected) == Some(mm)
    ensures mm.substitutions.Keys !! a.Keys
    ensures Idempotent(Merged(a, mm.substitutions))
  {
    var l := Substitute(g.left, a);
    var r := Substitute(g.right, a);
    SubstituteIdempotent(g.left, a);
    SubstituteIdempotent(g.right, a);
    UnifierFacts.MatchVars(l, r, Unifier.Corrected, mm);
    UnifierFacts.MatchIdempotent(l, r, mm);
    MergedIdempotent(a, mm.substitutions);
  }

  /** The bindings make the two terms equal. */
  ghost predicate Solves(m: TermMatch, l: Term, r: Term) {
    SubstituteMatch(l, m) == SubstituteMatch(r, m)
  }

  /** A turn that goes on keeps the bindings solved. */
  lemma TurnIdempotent(hoist: Normalizer, normGoals: seq<RecNormGoalChain>, eqGoals: seq<EqGoal>, matched: TermMatch)
    requires Idempotent(matched.substitutions)
    ensures Idempotent(DrainTurn(hoist, normGoals, eqGoals, matched).matched.substitutions)
  {
    var hoisted := hoist(normGoals, eqGoals, None, 0);
    if hoisted.1 != [] {
      var g := hoisted.1[|hoisted.1| - 1];
      var mm := MatchGoal(g, matched);
      if mm.Some? {
        MergeStep(matched.substitutions, g, mm.value);
      }
    }
  }

  /**
   * A turn that goes on keeps every equation the bindings already solved solved: the
   * new bindings only refine the old ones.
   */
  lemma TurnRefines(hoist: Normalizer, normGoals: seq<RecNormGoalChain>, eqGoals: seq<EqGoal>, matched: TermMatch,
                    l: Term, r: Term)
    requires Idempotent(matched.substitutions)
    requires Solves(matched, l, r)
    ensures Solves(DrainTurn(hoist, normGoals, eqGoals, matched).matched, l, r)
  {
    var hoisted := hoist(normGoals, eqGoals, None, 0);
    if hoisted.1 != [] {
      var g := hoisted.1[|hoisted.1| - 1];
      var mm := MatchGoal(g, matched);
      if mm.Some? {
        var a := matched.substitutions;
        MergeStep(a, g, mm.value);
        MergedComposes(a, mm.value.substitutions, l);
        MergedComposes(a, mm.value.substitutions, r);
      }
    }
  }

  /**
   * A turn that goes on solves the goal it popped, once the late goals it queued have
   * equal sides.
   */
  lemma TurnSolvesGoal(hoist: Normalizer, normGoals: seq<RecNormGoalChain>, eqGoals: seq<EqGoal>, matched: TermMatch)
    requires Idempotent(matched.substitutions) && matched.lateGoals == []
    requires DrainTurn(hoist, normGoals, eqGoals, matched).status == Pending
    requires var t := DrainTurn(hoist, normGoals, eqGoals, matched);
             var n := |hoist(normGoals, eqGoals, None, 0).1| - 1;
             forall i :: n <= i < |t.eqGoals| ==> t.eqGoals[i].left == t.eqGoals[i].right
    ensures var goal := hoist(normGoals, eqGoals, None, 0).1[|hoist(normGoals, eqGoals, None, 0).1| - 1];
            var t := DrainTurn(hoist, normGoals, eqGoals, matched);
            SubstituteMatch(goal.left, t.matched) == SubstituteMatch(goal.right, t.matched)
  {
    var hoisted := hoist(normGoals, eqGoals, None, 0);
    var n := |hoisted.1| - 1;
    var g := hoisted.1[n];
    var mm := MatchGoal(g, matched).value;
    var a := matched.substitutions;
    var t := DrainTurn(hoist, normGoals, eqGoals, matched);
    assert t.eqGoals == hoisted.1[..n] + mm.lateGoals;
    forall i | 0 <= i < |mm.lateGoals| ensures mm.lateGoals[i].left == mm.lateGoals[i].right {
      assert t.eqGoals[n + i] == mm.lateGoals[i];
    }
    MergeStep(a, g, mm);
    UnifierFacts.MatchSound(Substitute(g.left, a), Substitute(g.right, a), mm);
    MergedComposes(a, mm.substitutions, g.left);
    MergedComposes(a, mm.substitutions, g.right);
  }

  // ------------------------------------------------------------ what draining keeps

  /** With no eq goal or no fuel left the bindings stay as they are. */
  lemma DrainIdle(hoist: Normalizer, normGoals: seq<RecNormGoalChain>, eqGoals: seq<EqGoal>,
                  matched: TermMatch, fuel: nat)
    requires eqGoals == [] || fuel == 0
    ensures Drain(hoist, normGoals, eqGoals, matched, fuel).matched == matched
  {
  }

  /** Whatever property of the bindings every turn keeps, the whole drain keeps. */
  lemma {:induction false} DrainPreserves(P: TermMatch -> bool, hoist: Normalizer, normGoals: seq<RecNormGoalChain>,
                                          eqGoals: seq<EqGoal>, matched: TermMatch, fuel: nat)
    requires forall ng, eqs, m :: P(m) ==> P(DrainTurn(hoist, ng, eqs, m).matched)
    requires P(matched)
    ensures P(Drain(hoist, normGoals, eqGoals, matched, fuel).matched)
    decreases fuel
  {
    if eqGoals != [] && fuel > 0 {
      var t := DrainTurn(hoist, normGoals, eqGoals, matched);
      DrainNext(hoist, normGoals, eqGoals, matched, fuel);
      if t.status == Pending {
        DrainPreserves(P, hoist, t.normGoals, t.eqGoals, t.matched, fuel - 1);
      }
    } else {
      DrainIdle(hoist, normGoals, eqGoals, matched, fuel);
    }
  }

  /** Draining keeps the bindings solved: no bound variable occurs in a binding's value. */
  lemma DrainIdempotent(hoist: Normalizer, normGoals: seq<RecNormGoalChain>, eqGoals: seq<EqGoal>,
                        matched: TermMatch, fuel: nat)
    requires Idempotent(matched.substitutions)
    ensures Idempotent(Drain(hoist, normGoals, eqGoals, matched, fuel).matched.substitutions)
  {
    forall ng: seq<RecNormGoalChain>, eqs: seq<EqGoal>, m: TermMatch | Idempotent(m.substitutions)
      ensures Idempotent(DrainTurn(hoist, ng, eqs, m).matched.substitutions)
    {
      TurnIdempotent(hoist, ng, eqs, m);
    }
    DrainPreserves((m: TermMatch) => Idempotent(m.substitutions), hoist, normGoals, eqGoals, matched, fuel);
  }

  /** Draining never undoes a solved equation: what the bindings made equal stays equal. */
  lemma DrainRefines(hoist: Normalizer, normGoals: seq<RecNormGoalChain>, eqGoals: seq<EqGoal>,
                     matched: TermMatch, fuel: nat, l: Term, r: Term)
    requires Idempotent(matched.substitutions)
    requires Solves(matched, l, r)
    ensures Solves(Drain(hoist, normGoals, eqGoals, matched, fuel).matched, l, r)
  {
    forall ng: seq<RecNormGoalChain>, eqs: seq<EqGoal>, m: TermMatch | Idempotent(m.substitutions) && Solves(m, l, r)
      ensures Idempotent(DrainTurn(hoist, ng, eqs, m).matched.substitutions)
      ensures Solves(DrainTurn(hoist, ng, eqs, m).matched, l, r)
    {
      TurnIdempotent(hoist, ng, eqs, m);
      TurnRefines(hoist, ng, eqs, m, l, r);
    }
    DrainPreserves((m: TermMatch) => Idempotent(m.substitutions) && Solves(m, l, r), hoist, normGoals, eqGoals, matched, fuel);
  }

  // --------------------------------------------------------- substituting the goals

  function SubstituteImplGoals(goals: seq<RecImplGoalChain>, m: TermMatch): (r: seq<RecImplGoalChain>)
    ensures |r| == |goals|
  {
    seq(|goals|, i requires 0 <= i < |goals| =>
      RecImplGoalChain(ImplGoals.Substitute(goals[i].goal, m), goals[i].chain, goals[i].depth))
  }

  function SubstituteNormGoals(goals: seq<RecNormGoalChain>, m: TermMatch): (r: seq<RecNormGoalChain>)
    ensures |r| == |goals|
  {
    seq(|goals|, i requires 0 <= i < |goals| =>
      RecNormGoalChain(NormGoals.Substitute(goals[i].goal, m), goals[i].chain, goals[i].depth))
  }

  function SubstituteProven(gs: seq<ProvenGoals.ProvenGoal>, m: TermMatch): (r: seq<ProvenGoals.ProvenGoal>)
    ensures |r| == |gs|
  {
    seq(|gs|, i requires 0 <= i < |gs| => ProvenGoals.Substitute(gs[i], m))
  }

  /** `_provenImplGoals.ToDictionary(...)`: every node's list rewritten element by element. */
  function SubstituteProvenMap(proven: map<nat, seq<ProvenGoals.ProvenGoal>>, m: TermMatch)
    : (r: map<nat, seq<ProvenGoals.ProvenGoal>>)
    ensures r.Keys == proven.Keys
  {
    map j | j in proven :: SubstituteProven(proven[j], m)
  }

  function SubstituteInstantiations(insts: map<string, Instantiations.Instatiation>, m: TermMatch)
    : (r: map<string, Instantiations.Instatiation>)
    ensures r.Keys == insts.Keys
  {
    map k | k in insts :: Instantiations.Substitute(insts[k], m)
  }

  /** Every pending goal, recorded application and instantiation rewritten with the bindings. */
  function Rewritten(s: SolverState): SolverState {
    s.(implGoals := SubstituteImplGoals(s.implGoals, s.matched),
       normGoals := SubstituteNormGoals(s.normGoals, s.matched),
       provenGoals := SubstituteProvenMap(s.provenGoals, s.matched),
       instantiations := SubstituteInstantiations(s.instantiations, s.matched))
  }

  /** `ApplySubstitutionsToGoals`: the rewrite, skipped when there is no binding. */
  function Applied(s: SolverState): SolverState {
    if IsEmpty(s.matched) then s else Rewritten(s)
  }

  lemma ImplGoalsUnchanged(goals: seq<RecImplGoalChain>, m: TermMatch)
    requires m.substitutions == map[]
    ensures SubstituteImplGoals(goals, m) == goals
  {
    forall i | 0 <= i < |goals| ensures ImplGoals.Substitute(goals[i].goal, m) == goals[i].goal {
      var g := goals[i].goal;
      assert ImplGoals.SubstituteAssoc(g.assoc, m) == ImplGoals.SubstituteAssoc(g.assoc, Empty);
      ImplGoals.SubstituteEmpty(g);
    }
  }

  lemma NormGoalsUnchanged(goals: seq<RecNormGoalChain>, m: TermMatch)
    requires m.substitutions == map[]
    ensures SubstituteNormGoals(goals, m) == goals
  {
    forall i | 0 <= i < |goals| ensures NormGoals.Substitute(goals[i].goal, m) == goals[i].goal {
      NormGoals.SubstituteEmpty(goals[i].goal);
    }
  }

  lemma ProvenUnchanged(proven: map<nat, seq<ProvenGoals.ProvenGoal>>, m: TermMatch)
    requires m.substitutions == map[]
    ensures SubstituteProvenMap(proven, m) == proven
  {
    forall j, i | j in proven && 0 <= i < |proven[j]|
      ensures ProvenGoals.Substitute(proven[j][i], m) == proven[j][i]
    {
      var g := proven[j][i];
      assert ProvenGoals.SubstituteArgs(g.args, m) == ProvenGoals.SubstituteArgs(g.args, Empty);
      ProvenGoals.SubstituteEmpty(g);
    }
    forall j | j in proven ensures SubstituteProven(proven[j], m) == proven[j] {
    }
  }

  lemma InstantiationsUnchanged(insts: map<string, Instantiations.Instatiation>, m: TermMatch)
    requires m.substitutions == map[]
    ensures SubstituteInstantiations(insts, m) == insts
  {
    forall k | k in insts ensures Instantiations.Substitute(insts[k], m) == insts[k] {
      Instantiations.SubstituteEmpty(insts[k]);
    }
  }

  /** The `IsEmpty` guard only saves work: rewriting with no binding changes nothing. */
  lemma GuardHarmless(s: SolverState)
    ensures Applied(s) == Rewritten(s)
  {
    if IsEmpty(s.matched) {
      EmptyFacts(s.matched);
      assert s.matched.substitutions == map[];
      ImplGoalsUnchanged(s.implGoals, s.matched);
      NormGoalsUnchanged(s.normGoals, s.matched);
      ProvenUnchanged(s.provenGoals, s.matched);
      InstantiationsUnchanged(s.instantiations, s.matched);
    }
  }

  /**
   * The rewrite keeps every proof-chain node, depth, slot name and result variable,
   * every node with recorded applications with the clause and argument keys of each,
   * every instantiation's impl and constraint slots, and leaves the eq goals, the
   * bindings, the clauses and the caches alone.
   */
  lemma AppliedKeeps(s: SolverState)
    ensures var r := Applied(s);
      && |r.implGoals| == |s.implGoals|
      && (forall i :: 0 <= i < |s.implGoals| ==>
            r.implGoals[i].chain == s.implGoals[i].chain && r.implGoals[i].depth == s.implGoals[i].depth
            && r.implGoals[i].goal.resolvesTo == s.implGoals[i].goal.resolvesTo)
      && |r.normGoals| == |s.normGoals|
      && (forall i :: 0 <= i < |s.normGoals| ==>
            r.normGoals[i].chain == s.normGoals[i].chain && r.normGoals[i].depth == s.normGoals[i].depth
            && r.normGoals[i].goal.resultVar == s.normGoals[i].goal.resultVar)
      && r.provenGoals.Keys == s.provenGoals.Keys
      && (forall j :: j in s.provenGoals ==> |r.provenGoals[j]| == |s.provenGoals[j]|)
      && (forall j, i :: j in s.provenGoals && 0 <= i < |s.provenGoals[j]| ==>
            r.provenGoals[j][i].clause == s.provenGoals[j][i].clause
            && r.provenGoals[j][i].args.Keys == s.provenGoals[j][i].args.Keys)
      && r.instantiations.Keys == s.instantiations.Keys
      && (forall k :: k in s.instantiations ==>
            r.instantiations[k].implName == s.instantiations[k].implName
            && r.instantiations[k].constraints == s.instantiations[k].constraints)
      && r.eqGoals == s.eqGoals && r.matched == s.matched && r.clauses == s.clauses
      && r.reuseImplGoals == s.reuseImplGoals && r.reuseNormGoals == s.reuseNormGoals
  {
    GuardHarmless(s);
  }

  /** The rewrite keeps a consistent state consistent. */
  lemma AppliedConsistent(s: SolverState, n: nat)
    requires Consistent(s, n)
    ensures Consistent(Applied(s), n)
  {
    AppliedKeeps(s);
  }

  lemma InstantiationSettles(inst: Instantiations.Instatiation, m: TermMatch)
    requires Idempotent(m.substitutions)
    ensures Instantiations.Substitute(Instantiations.Substitute(inst, m), m) == Instantiations.Substitute(inst, m)
  {
    var r := Instantiations.Substitute(inst, m);
    forall i | 0 <= i < |inst.vars| ensures SubstituteMatch(r.vars[i], m) == r.vars[i] {
      SubstituteIdempotent(inst.vars[i], m.substitutions);
    }
  }

  lemma ProvenGoalSettles(g: ProvenGoals.ProvenGoal, m: TermMatch)
    requires Idempotent(m.substitutions)
    ensures ProvenGoals.Substitute(ProvenGoals.Substitute(g, m), m) == ProvenGoals.Substitute(g, m)
  {
    var r := ProvenGoals.Substitute(g, m);
    forall k | k in g.args ensures SubstituteMatch(r.args[k], m) == r.args[k] {
      SubstituteIdempotent(g.args[k], m.substitutions);
    }
  }

  /**
   * With solved bindings the rewrite leaves no bound variable in a pending impl or norm
   * goal, and rewriting once more changes nothing.
   */
  lemma AppliedSettles(s: SolverState)
    requires Idempotent(s.matched.substitutions)
    ensures forall i :: 0 <= i < |Applied(s).implGoals| ==>
      ImplGoals.GoalVars(Applied(s).implGoals[i].goal) !! s.matched.substitutions.Keys
    ensures forall i :: 0 <= i < |Applied(s).normGoals| ==>
      FreeVars(Applied(s).normGoals[i].goal.alias) !! s.matched.substitutions.Keys
    ensures Applied(Applied(s)) == Applied(s)
  {
    GuardHarmless(s);
    var r := Rewritten(s);
    var m := s.matched;
    GuardHarmless(r);
    forall i | 0 <= i < |s.implGoals|
      ensures ImplGoals.GoalVars(r.implGoals[i].goal) !! m.substitutions.Keys
      ensures ImplGoals.Substitute(r.implGoals[i].goal, m) == r.implGoals[i].goal
    {
      ImplGoals.SubstituteIdempotent(s.implGoals[i].goal, m);
    }
    forall i | 0 <= i < |s.normGoals|
      ensures FreeVars(r.normGoals[i].goal.alias) !! m.substitutions.Keys
      ensures NormGoals.Substitute(r.normGoals[i].goal, m) == r.normGoals[i].goal
    {
      NormGoals.SubstituteIdempotent(s.normGoals[i].goal, m);
    }
    forall j, i | j in s.provenGoals && 0 <= i < |s.provenGoals[j]|
      ensures ProvenGoals.Substitute(r.provenGoals[j][i], m) == r.provenGoals[j][i]
    {
      ProvenGoalSettles(s.provenGoals[j][i], m);
    }
    forall k | k in s.instantiations
      ensures Instantiations.Substitute(r.instantiations[k], m) == r.instantiations[k]
    {
      InstantiationSettles(s.instantiations[k], m);
    }
    assert SubstituteImplGoals(r.implGoals, m) == r.implGoals;
    assert SubstituteNormGoals(r.normGoals, m) == r.normGoals;
    forall j | j in r.provenGoals ensures SubstituteProven(r.provenGoals[j], m) == r.provenGoals[j] {
    }
    assert SubstituteProvenMap(r.provenGoals, m) == r.provenGoals;
    assert SubstituteInstantiations(r.instantiations, m) == r.instantiations;
  }

  // ------------------------------------------------------------------ the loops

  /** One turn of the `ProcessEquationGoals` loop on the solver's three fields. */
  method DrainOnce(hoist: Normalizer, normGoals: seq<RecNormGoalChain>, eqGoals: seq<EqGoal>, matched: TermMatch)
    returns (t: DrainState)
    ensures t == DrainTurn(hoist, normGoals, eqGoals, matched)
  {
    var hoisted := hoist(normGoals, eqGoals, None, 0);
    var goals := hoisted.1;
    if goals == [] {
      return DrainState(Thrown, hoisted.0, goals, matched);
    }
    var goal := goals[|goals| - 1];
    goals := goals[..|goals| - 1];
    var m := TermMatching.TryMatch(SubstituteMatch(goal.left, matched), SubstituteMatch(goal.right, matched),
                                   Unifier.Corrected);
    if m.None? {
      return DrainState(Failed, hoisted.0, goals, matched);
    }
    var merged := MergeCorrected(matched, m.value);
    goals := goals + merged.lateGoals;
    t := DrainState(Pending, hoisted.0, goals, PurgeGoals(merged));
  }

  /** The `ProcessEquationGoals` loop, for at most `fuel` turns. */
  method DrainLoop(hoist: Normalizer, normGoals: seq<RecNormGoalChain>, eqGoals: seq<EqGoal>, matched: TermMatch,
                   fuel: nat) returns (d: DrainState)
    ensures d == Drain(hoist, normGoals, eqGoals, matched, fuel)
  {
    d := DrainState(Drained, normGoals, eqGoals, matched);
    var fuelLeft := fuel;
    while d.eqGoals != []
      invariant d.status == Drained
      invariant Drain(hoist, d.normGoals, d.eqGoals, d.matched, fuelLeft) == Drain(hoist, normGoals, eqGoals, matched, fuel)
      decreases fuelLeft
    {
      if fuelLeft == 0 {
        return d.(status := Pending);
      }
      var t := DrainOnce(hoist, d.normGoals, d.eqGoals, d.matched);
      DrainNext(hoist, d.normGoals, d.eqGoals, d.matched, fuelLeft);
      if t.status != Pending {
        return t;
      }
      d := t.(status := Drained);
      fuelLeft := fuelLeft - 1;
    }
  }

  /** The `_implGoals[i] = ...` loop. */
  method RewriteImplGoals(goals: seq<RecImplGoalChain>, m: TermMatch) returns (r: seq<RecImplGoalChain>)
    ensures r == SubstituteImplGoals(goals, m)
  {
    r := goals;
    for i := 0 to |r|
      invariant |r| == |goals|
      invariant forall k :: 0 <= k < i ==> r[k] == SubstituteImplGoals(goals, m)[k]
      invariant forall k :: i <= k < |r| ==> r[k] == goals[k]
    {
      r := r[i := RecImplGoalChain(ImplGoals.Substitute(r[i].goal, m), r[i].chain, r[i].depth)];
    }
  }

  /** The `_normGoals[i] = ...` loop. */
  method RewriteNormGoals(goals: seq<RecNormGoalChain>, m: TermMatch) returns (r: seq<RecNormGoalChain>)
    ensures r == SubstituteNormGoals(goals, m)
  {
    r := goals;
    for i := 0 to |r|
      invariant |r| == |goals|
      invariant forall k :: 0 <= k < i ==> r[k] == SubstituteNormGoals(goals, m)[k]
      invariant forall k :: i <= k < |r| ==> r[k] == goals[k]
    {
      r := r[i := RecNormGoalChain(NormGoals.Substitute(r[i].goal, m), r[i].chain, r[i].depth)];
    }
  }

  /** The `foreach (var instName in _instatiations.Keys.ToList())` loop. */
  method RewriteInstantiations(insts: map<string, Instantiations.Instatiation>, m: TermMatch)
    returns (r: map<string, Instantiations.Instatiation>)
    ensures r == SubstituteInstantiations(insts, m)
  {
    r := insts;
    var todo := insts.Keys;
    while todo != {}
      invariant todo <= r.Keys && r.Keys == insts.Keys
      invariant forall k :: k in r ==> r[k] == if k in todo then insts[k] else Instantiations.Substitute(insts[k], m)
      decreases todo
    {
      var instName :| instName in todo;
      r := r[instName := Instantiations.Substitute(r[instName], m)];
      todo := todo - {instName};
    }
  }

  // -------------------------------------------------------------- the solver object

  /** The fields of a `Solver` that its eq-goal methods read and write in place. */
  class Solver {
    var implGoals: seq<RecImplGoalChain>
    var normGoals: seq<RecNormGoalChain>
    var eqGoals: seq<EqGoal>
    var matched: TermMatch
    var clauses: seq<Clauses.Clause>
    var instantiations: map<string, Instantiations.Instatiation>
    var provenGoals: map<nat, seq<ProvenGoals.ProvenGoal>>
    var reuseImplGoals: map<(Term, Term), ProvenGoals.ReuseImplGoal>
    var reuseNormGoals: map<Term, Term>

    function State(): SolverState
      reads this
    {
      SolverState(implGoals, normGoals, eqGoals, matched, clauses, instantiations, provenGoals,
                  reuseImplGoals, reuseNormGoals)
    }

    constructor(s: SolverState)
      ensures State() == s
    {
      implGoals, normGoals, eqGoals, matched := s.implGoals, s.normGoals, s.eqGoals, s.matched;
      clauses, instantiations, provenGoals := s.clauses, s.instantiations, s.provenGoals;
      reuseImplGoals, reuseNormGoals := s.reuseImplGoals, s.reuseNormGoals;
    }

    /**
     * `ProcessEquationGoals`, for at most `fuel` turns: the norm goals, eq goals and
     * bindings it leaves are those of `Drain`, and no other field changes.
     */
    method ProcessEquationGoals(hoist: Normalizer, fuel: nat) returns (status: DrainStatus)
      modifies this
      ensures var d := Drain(hoist, old(normGoals), old(eqGoals), old(matched), fuel);
              State() == old(State()).(normGoals := d.normGoals, eqGoals := d.eqGoals, matched := d.matched)
              && status == d.status
    {
      var d := DrainLoop(hoist, normGoals, eqGoals, matched, fuel);
      normGoals, eqGoals, matched := d.normGoals, d.eqGoals, d.matched;
      status := d.status;
    }

    /**
     * `ApplySubstitutionsToGoals`: every pending impl and norm goal, every recorded
     * application and every instantiation rewritten with the bindings, unless there is
     * none.
     */
    method ApplySubstitutionsToGoals()
      modifies this
      ensures State() == Applied(old(State()))
    {
      if !IsEmpty(matched) {
        implGoals := RewriteImplGoals(implGoals, matched);
        normGoals := RewriteNormGoals(normGoals, matched);
        provenGoals := SubstituteProvenMap(provenGoals, matched);
        instantiations := RewriteInstantiations(instantiations, matched);
      }
    }
  }
}

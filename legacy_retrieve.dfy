/**
 * `RetrieveImplGoal` of the older solver: which pending impl goal is worked on next.
 * A goal with no free variable comes first; then, among the goals whose target has no
 * free variable, the one counting the fewest free variables; then the one counting the
 * fewest overall.  `OrderBy` is stable, so list order breaks ties, and `FirstOrDefault`
 * on an empty selection yields the `default` value, whose chain id is 0.
 */
module LegacyRetrieve {
  import opened Wrappers
  import opened Terms
  import LG = LegacyGoals
  import LegacyTerms
  import opened LegacySolverStates

  /** `x.Goal.CountFreeVars()` */
  function Count(g: RecImplGoalChain): nat {
    LG.CountFreeVars(g.goal)
  }

  /** `g.Goal.IsNonGeneric()` */
  predicate NonGeneric(g: RecImplGoalChain) {
    LG.IsNonGeneric(g.goal)
  }

  /** `!x.Goal.Target.Any<FreeVar>()` */
  predicate GroundTarget(g: RecImplGoalChain) {
    !LegacyTerms.AnyOfKind(g.goal.target, KFreeVar)
  }

  /** `FirstOrDefault(p)`, as the index of the first goal satisfying `p`. */
  function FirstWhere<T>(goals: seq<T>, p: T -> bool): (r: Option<nat>)
    ensures r.None? <==> forall j :: 0 <= j < |goals| ==> !p(goals[j])
    ensures r.Some? ==> r.value < |goals| && p(goals[r.value]) && forall j :: 0 <= j < r.value ==> !p(goals[j])
  {
    if goals == [] then None
    else if p(goals[0]) then Some(0)
    else
      var r := FirstWhere(goals[1..], p);
      assert forall j :: 1 <= j < |goals| ==> goals[j] == goals[1..][j - 1];
      if r.None? then None else Some(r.value + 1)
  }

  /**
   * `Where(p).OrderBy(CountFreeVars).FirstOrDefault()`, as an index: the goal satisfying
   * `p` with the smallest count, the earliest one among equal counts.
   */
  function LeastWhere<T>(goals: seq<T>, p: T -> bool, key: T -> nat): (r: Option<nat>)
    ensures r.None? <==> forall j :: 0 <= j < |goals| ==> !p(goals[j])
    ensures r.Some? ==> r.value < |goals| && p(goals[r.value])
  {
    if goals == [] then None
    else
      var n := |goals| - 1;
      var r := LeastWhere(goals[..n], p, key);
      assert forall j :: 0 <= j < n ==> goals[j] == goals[..n][j];
      if !p(goals[n]) then r
      else if r.None? then Some(n)
      else if key(goals[n]) < key(goals[r.value]) then Some(n)
      else r
  }

  /**
   * The goal `LeastWhere` picks has the smallest key among the goals satisfying `p`,
   * and every earlier one satisfying `p` has a larger key.
   */
  lemma {:induction false} LeastWhereMinimal<T>(goals: seq<T>, p: T -> bool, key: T -> nat)
    ensures var r := LeastWhere(goals, p, key);
      r.Some? ==>
        && (forall j :: 0 <= j < |goals| && p(goals[j]) ==> key(goals[r.value]) <= key(goals[j]))
        && (forall j :: 0 <= j < r.value && p(goals[j]) ==> key(goals[r.value]) < key(goals[j]))
  {
    if goals != [] {
      var n := |goals| - 1;
      LeastWhereMinimal(goals[..n], p, key);
      assert forall j :: 0 <= j < n ==> goals[j] == goals[..n][j];
    }
  }

  function AnyGoal(g: RecImplGoalChain): bool {
    true
  }

  /** `RetrieveImplGoal()` */
  function RetrieveImplGoal(goals: seq<RecImplGoalChain>): (r: Option<RecImplGoalChain>)
    ensures goals == [] ==> r.None?
    ensures r.Some? ==> r.value in goals
  {
    if |goals| == 0 then None
    else
      var nonGeneric := FirstWhere(goals, NonGeneric);
      if nonGeneric.Some? then Some(goals[nonGeneric.value])
      else
        var groundTarget := LeastWhere(goals, GroundTarget, Count);
        if groundTarget.Some? && goals[groundTarget.value].chainId != 0 then Some(goals[groundTarget.value])
        else
          var least := LeastWhere(goals, AnyGoal, Count).value;
          if goals[least].chainId == 0 then None
          else Some(RecImplGoalChain(goals[least].goal, goals[least].chainId, goals[least].depth))
  }

  /** With every chain id set, no goal is elected exactly when none is pending. */
  lemma RetrieveNoneIffEmpty(goals: seq<RecImplGoalChain>)
    requires ChainsPositive(goals)
    ensures RetrieveImplGoal(goals).None? <==> goals == []
  {
  }

  /** With every chain id set, the `default` checks never fire: the three selections are tried in turn. */
  lemma RetrieveShape(goals: seq<RecImplGoalChain>)
    requires ChainsPositive(goals) && goals != []
    ensures var nonGeneric := FirstWhere(goals, NonGeneric);
      var groundTarget := LeastWhere(goals, GroundTarget, Count);
      RetrieveImplGoal(goals)
      == if nonGeneric.Some? then Some(goals[nonGeneric.value])
         else if groundTarget.Some? then Some(goals[groundTarget.value])
         else Some(goals[LeastWhere(goals, AnyGoal, Count).value])
  {
    var groundTarget := LeastWhere(goals, GroundTarget, Count);
    if groundTarget.Some? {
      assert goals[groundTarget.value].chainId > 0;
    }
    assert AnyGoal(goals[0]);
    var least := LeastWhere(goals, AnyGoal, Count).value;
    assert goals[least].chainId > 0;
  }

  /** `GroundTarget` is "the target has no free variable". */
  lemma GroundTargetIff(goals: seq<RecImplGoalChain>)
    ensures forall j :: 0 <= j < |goals| ==> (GroundTarget(goals[j]) <==> FreeVars(goals[j].goal.target) == {})
  {
    forall j | 0 <= j < |goals| ensures GroundTarget(goals[j]) <==> FreeVars(goals[j].goal.target) == {} {
      LegacyTerms.AnyFreeVarIffFreeVars(goals[j].goal.target);
    }
  }

  /** Priority 1: a goal with no free variable at all, the first such in list order. */
  lemma ElectsNonGenericFirst(goals: seq<RecImplGoalChain>, i: nat)
    requires i < |goals| && LG.GoalVars(goals[i].goal) == {}
    requires forall j :: 0 <= j < i ==> LG.GoalVars(goals[j].goal) != {}
    ensures RetrieveImplGoal(goals) == Some(goals[i])
  {
    assert NonGeneric(goals[i]);
    var f := FirstWhere(goals, NonGeneric);
    assert f == Some(i) by {
      assert f.Some?;
      assert !(f.value < i);
    }
  }

  /**
   * Priority 2: when no goal is free of variables, a goal whose target has none, with
   * the smallest count among those and the earliest on a tie.
   */
  lemma ElectsGroundTargetNext(goals: seq<RecImplGoalChain>)
    requires ChainsPositive(goals)
    requires forall j :: 0 <= j < |goals| ==> LG.GoalVars(goals[j].goal) != {}
    requires exists j :: 0 <= j < |goals| && FreeVars(goals[j].goal.target) == {}
    ensures exists i :: LeastGroundAt(goals, i) && RetrieveImplGoal(goals) == Some(goals[i])
  {
    NoneNonGeneric(goals);
    LeastGroundTarget(goals);
    var i := LeastWhere(goals, GroundTarget, Count).value;
    RetrieveShape(goals);
    assert RetrieveImplGoal(goals) == Some(goals[i]);
  }

  /**
   * Goal `i` has a target with no free variable, the smallest count among such goals,
   * and a smaller count than every such goal before it.
   */
  ghost predicate LeastGroundAt(goals: seq<RecImplGoalChain>, i: int) {
    && 0 <= i < |goals| && FreeVars(goals[i].goal.target) == {}
    && (forall j :: 0 <= j < |goals| && FreeVars(goals[j].goal.target) == {} ==> Count(goals[i]) <= Count(goals[j]))
    && (forall j :: 0 <= j < i && FreeVars(goals[j].goal.target) == {} ==> Count(goals[i]) < Count(goals[j]))
  }

  /** Goal `i` has the smallest count, and a smaller one than every goal before it. */
  ghost predicate LeastCountAt(goals: seq<RecImplGoalChain>, i: int) {
    && 0 <= i < |goals|
    && (forall j :: 0 <= j < |goals| ==> Count(goals[i]) <= Count(goals[j]))
    && (forall j :: 0 <= j < i ==> Count(goals[i]) < Count(goals[j]))
  }

  /** When every goal has a free variable, the first selection finds none. */
  lemma NoneNonGeneric(goals: seq<RecImplGoalChain>)
    requires forall j :: 0 <= j < |goals| ==> LG.GoalVars(goals[j].goal) != {}
    ensures FirstWhere(goals, NonGeneric).None?
  {
    forall j | 0 <= j < |goals| ensures !NonGeneric(goals[j]) {
      assert LG.GoalVars(goals[j].goal) != {};
    }
  }

  /** Among the goals whose target has no free variable, `LeastWhere` picks the least count, the earliest on a tie. */
  lemma LeastGroundTarget(goals: seq<RecImplGoalChain>)
    requires exists j :: 0 <= j < |goals| && FreeVars(goals[j].goal.target) == {}
    ensures var r := LeastWhere(goals, GroundTarget, Count);
      r.Some? && LeastGroundAt(goals, r.value)
  {
    GroundTargetIff(goals);
    var w :| 0 <= w < |goals| && FreeVars(goals[w].goal.target) == {};
    assert GroundTarget(goals[w]);
    LeastWhereMinimal(goals, GroundTarget, Count);
  }

  /** Priority 3: when no target is free of variables, the goal with the smallest count, the earliest on a tie. */
  lemma ElectsLeastCountLast(goals: seq<RecImplGoalChain>)
    requires ChainsPositive(goals) && goals != []
    requires forall j :: 0 <= j < |goals| ==> FreeVars(goals[j].goal.target) != {}
    ensures exists i :: LeastCountAt(goals, i) && RetrieveImplGoal(goals) == Some(goals[i])
  {
    NoTargetGround(goals);
    LeastCount(goals);
    var i := LeastWhere(goals, AnyGoal, Count).value;
    RetrieveShape(goals);
    assert RetrieveImplGoal(goals) == Some(goals[i]);
  }

  /** Over all goals, `LeastWhere` picks the least count, the earliest on a tie. */
  lemma LeastCount(goals: seq<RecImplGoalChain>)
    requires goals != []
    ensures var r := LeastWhere(goals, AnyGoal, Count);
      r.Some? && LeastCountAt(goals, r.value)
  {
    assert AnyGoal(goals[0]);
    LeastWhereMinimal(goals, AnyGoal, Count);
    var i := LeastWhere(goals, AnyGoal, Count).value;
    forall j | 0 <= j < |goals| ensures Count(goals[i]) <= Count(goals[j]) {
      assert AnyGoal(goals[j]);
    }
    forall j | 0 <= j < i ensures Count(goals[i]) < Count(goals[j]) {
      assert AnyGoal(goals[j]);
    }
  }

  /** When every target has a free variable, neither of the first two selections finds a goal. */
  lemma NoTargetGround(goals: seq<RecImplGoalChain>)
    requires forall j :: 0 <= j < |goals| ==> FreeVars(goals[j].goal.target) != {}
    ensures FirstWhere(goals, NonGeneric).None? && LeastWhere(goals, GroundTarget, Count).None?
  {
    forall j | 0 <= j < |goals| ensures !GroundTarget(goals[j]) && !NonGeneric(goals[j]) {
      LegacyTerms.AnyFreeVarIffFreeVars(goals[j].goal.target);
    }
  }

  /** `List<List<?a>>: Eq`, first in the chain. */
  function NestedGoal(): RecImplGoalChain {
    RecImplGoalChain(LG.ImplGoal(App("List", [App("List", [FreeVar("a")])]), App("Eq", []), "g1"), 1, 0)
  }

  /** `Vec<?b>: Eq`, second in the chain. */
  function VecGoal(): RecImplGoalChain {
    RecImplGoalChain(LG.ImplGoal(App("Vec", [FreeVar("b")]), App("Eq", []), "g2"), 2, 0)
  }

  /** Both targets have a free variable; the nested one counts none, `?b` counts once. */
  lemma NestedCounts()
    ensures FreeVars(NestedGoal().goal.target) != {} && FreeVars(VecGoal().goal.target) != {}
    ensures Count(NestedGoal()) == 0 && Count(VecGoal()) == 1
  {
    var g1 := NestedGoal().goal;
    var g2 := VecGoal().goal;
    assert "a" in FreeVars(FreeVar("a"));
    assert "a" in FreeVars(g1.target.args[0]);
    assert "a" in FreeVars(g1.target);
    assert LG.ArgVars(g1.target) == {};
    assert LG.ArgVars(g1.traitTerm) == {};
    assert "b" in FreeVars(FreeVar("b"));
    assert "b" in FreeVars(g2.target);
    assert LG.ArgVars(g2.target) == {"b"} by {
      assert g2.target.args[0].FreeVar?;
    }
    assert LG.ArgVars(g2.traitTerm) == {};
  }

  /**
   * When every target holds a free variable, the one goal that counts fewer than all
   * others is elected, wherever it stands.  With `NestedCounts`, `List<List<?a>>: Eq`
   * is elected before `Vec<?b>: Eq` although its variable is nested below an argument.
   */
  lemma FewestCountedElected(goals: seq<RecImplGoalChain>, k: nat)
    requires ChainsPositive(goals) && k < |goals|
    requires forall j :: 0 <= j < |goals| ==> FreeVars(goals[j].goal.target) != {}
    requires forall j :: 0 <= j < |goals| && j != k ==> Count(goals[k]) < Count(goals[j])
    ensures RetrieveImplGoal(goals) == Some(goals[k])
  {
    NoTargetGround(goals);
    LeastCount(goals);
    RetrieveShape(goals);
    var i := LeastWhere(goals, AnyGoal, Count).value;
    assert Count(goals[i]) <= Count(goals[k]);
  }
}

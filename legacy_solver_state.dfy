/**
 * What a `Solver` of the older engine (the older `Solver.cs`) carries: the pending eq
 * goals, the pending impl goals with their chain id and depth, the goal stack used as a
 * cycle check, the clauses, the bindings found so far (`null` before the first eq goal
 * is solved) and the instantiation table.  A candidate solver is built as a new value.
 */
module LegacySolverStates {
  import opened Wrappers
  import opened Terms
  import opened Substitution
  import LG = LegacyGoals
  import LegacyClauses
  import LegacyMatch
  import EqGoals
  import Instantiations
  import SolverStates

  type EqGoal = EqGoals.EqGoal

  /** `Solver.MaxRecursion` */
  const MaxRecursion: int := 1000

  /** `ImplGoalChain(Goal, ChainId)`: an entry of the goal stack. */
  datatype ImplGoalChain = ImplGoalChain(goal: LG.ImplGoal, chainId: int)

  /** `RecImplGoalChain(Goal, ChainId, RecursionDepth)`: a pending impl goal. */
  datatype RecImplGoalChain = RecImplGoalChain(goal: LG.ImplGoal, chainId: int, depth: int)

  /**
   * The fields of a `Solver`.  The `HashSet` of the goal stack is a sequence without
   * repetitions, in the order the set enumerates, which for a set that was only ever
   * added to is the order of insertion.
   */
  datatype SolverState = SolverState(
    eqGoals: seq<EqGoal>,
    implGoals: seq<RecImplGoalChain>,
    goalStack: seq<ImplGoalChain>,
    clauses: seq<LegacyClauses.Clause>,
    matched: Option<Bindings>,
    instantiations: map<string, Instantiations.Instatiation>)

  /** `SolverResult(Instantiations, Match)` */
  datatype SolverResult = SolverResult(instantiations: map<string, Instantiations.Instatiation>, matched: Bindings)

  /** Which of the two `BuildCandidate` bodies of the snapshot is in use. */
  datatype Variant =
    | Inline  // `Solver.cs`
    | Split   // `Solver_BuildCandidate.cs`, with its helper methods

  /**
   * What the older solver takes from code that is not part of this model:
   * `TermMatch.Merge`, the order in which a `Dictionary<FreeVar, Term>` enumerates its
   * entries, and the choice of `BuildCandidate` body.
   */
  datatype Env = Env(merge: (Bindings, Bindings) -> Bindings, entries: Bindings -> seq<(string, Term)>, variant: Variant)

  /** `foreach` over a dictionary yields every entry once. */
  ghost predicate Enumerates(entries: Bindings -> seq<(string, Term)>) {
    forall m :: SolverStates.EntriesOf(entries(m), m)
  }

  /**
   * A merge that means "the old bindings, then the new ones": substituting with the
   * merged match is substituting with the receiver and then with the argument.
   */
  ghost predicate Composes(merge: (Bindings, Bindings) -> Bindings) {
    forall a, b, t {:trigger Substitute(t, merge(a, b))} :: Substitute(t, merge(a, b)) == Substitute(Substitute(t, a), b)
  }

  /** What the old bindings make equal, the merged bindings keep equal. */
  ghost predicate KeepsEquated(merge: (Bindings, Bindings) -> Bindings, a: Term, b: Term) {
    forall m, u {:trigger merge(m, u)} :: Substitute(a, m) == Substitute(b, m) ==> Substitute(a, merge(m, u)) == Substitute(b, merge(m, u))
  }

  /** A merge that composes keeps every equation. */
  lemma ComposesKeepsEquated(merge: (Bindings, Bindings) -> Bindings, a: Term, b: Term)
    requires Composes(merge)
    ensures KeepsEquated(merge, a, b)
  {
    forall m, u | Substitute(a, m) == Substitute(b, m) ensures Substitute(a, merge(m, u)) == Substitute(b, merge(m, u)) {
      assert Substitute(a, merge(m, u)) == Substitute(Substitute(a, m), u);
      assert Substitute(b, merge(m, u)) == Substitute(Substitute(b, m), u);
    }
  }

  /** The composition of substitutions is such a merge. */
  lemma ComposeComposes()
    ensures Composes((a, b) => Compose(a, b))
  {
    forall a, b, t ensures Substitute(t, Compose(a, b)) == Substitute(Substitute(t, a), b) {
      SubstituteCompose(t, a, b);
    }
  }

  // ------------------------------------------------------------------ the goal stack

  /** A sequence standing for a set holds no element twice. */
  predicate NoRepeats<T(==)>(s: seq<T>) {
    forall i, j :: 0 <= i < j < |s| ==> s[i] != s[j]
  }

  /** `HashSet.Add(x)`: false and no change when `x` is there, true and `x` added last otherwise. */
  function StackAdd(stack: seq<ImplGoalChain>, e: ImplGoalChain): (r: (bool, seq<ImplGoalChain>))
    ensures r.0 <==> e !in stack
    ensures NoRepeats(stack) ==> NoRepeats(r.1)
    ensures forall x :: x in r.1 <==> x in stack || x == e
  {
    if e in stack then (false, stack) else (true, stack + [e])
  }

  /** `new HashSet<T>(items)`: each element once, where it first occurs. */
  function Dedup<T(==,!new)>(s: seq<T>): (r: seq<T>)
    ensures NoRepeats(r)
    ensures forall x :: x in r <==> x in s
  {
    if s == [] then []
    else
      var n := |s| - 1;
      var d := Dedup(s[..n]);
      assert forall x :: x in s <==> x in s[..n] || x == s[n] by {
        assert s == s[..n] + [s[n]];
      }
      if s[n] in d then d else d + [s[n]]
  }

  /** A sequence without repetitions is its own set. */
  lemma {:induction false} DedupNoRepeats<T(!new)>(s: seq<T>)
    requires NoRepeats(s)
    ensures Dedup(s) == s
  {
    if s != [] {
      var n := |s| - 1;
      DedupNoRepeats(s[..n]);
      assert s == s[..n] + [s[n]];
    }
  }

  /** `ImplGoalChain.Substitute(match)`: the goal substituted, the chain id kept. */
  function SubstituteEntry(e: ImplGoalChain, m: Bindings): ImplGoalChain {
    ImplGoalChain(LG.Substitute(e.goal, m), e.chainId)
  }

  // ------------------------------------------------------------------ the constructor

  /** What `new Solver(goals, clauses)` takes: eq goals and impl goals in one list. */
  datatype Goal = Eq(eq: EqGoal) | Impl(impl: LG.ImplGoal)

  /** `goals.OfType<EqGoal>()` */
  function EqGoalsOf(goals: seq<Goal>): seq<EqGoal> {
    if goals == [] then []
    else
      var n := |goals| - 1;
      EqGoalsOf(goals[..n]) + (if goals[n].Eq? then [goals[n].eq] else [])
  }

  /** `goals.OfType<ImplGoal>()` */
  function ImplGoalsOf(goals: seq<Goal>): seq<LG.ImplGoal> {
    if goals == [] then []
    else
      var n := |goals| - 1;
      ImplGoalsOf(goals[..n]) + (if goals[n].Impl? then [goals[n].impl] else [])
  }

  /** Each goal of the list lands in exactly one of the two filtered lists, in list order. */
  lemma {:induction false} OfTypePartition(goals: seq<Goal>)
    ensures |EqGoalsOf(goals)| + |ImplGoalsOf(goals)| == |goals|
    ensures forall e :: e in EqGoalsOf(goals) <==> Eq(e) in goals
    ensures forall g :: g in ImplGoalsOf(goals) <==> Impl(g) in goals
  {
    if goals != [] {
      var n := |goals| - 1;
      OfTypePartition(goals[..n]);
      assert goals == goals[..n] + [goals[n]];
      assert forall x :: x in goals <==> x in goals[..n] || x == goals[n];
    }
  }

  /** `Select((x, i) => new RecImplGoalChain(x, i + 1, 0))` */
  function Chained(goals: seq<LG.ImplGoal>): seq<RecImplGoalChain> {
    seq(|goals|, i requires 0 <= i < |goals| => RecImplGoalChain(goals[i], i + 1, 0))
  }

  /** `new Solver(goals, clauses)` */
  function Init(goals: seq<Goal>, clauses: seq<LegacyClauses.Clause>): SolverState {
    SolverState(EqGoalsOf(goals), Chained(ImplGoalsOf(goals)), [], clauses, None, map[])
  }

  // ------------------------------------------------------------------ invariants

  /** Every pending impl goal has a chain id other than the `default` one, 0. */
  ghost predicate ChainsPositive(goals: seq<RecImplGoalChain>) {
    forall i :: 0 <= i < |goals| ==> goals[i].chainId > 0
  }

  /** Every goal on the stack names a filled instantiation slot. */
  ghost predicate StackResolved(s: SolverState) {
    forall i :: 0 <= i < |s.goalStack| ==> s.goalStack[i].goal.resolvesTo in s.instantiations
  }

  /** What every solver of a search keeps. */
  ghost predicate Valid(s: SolverState) {
    ChainsPositive(s.implGoals) && StackResolved(s) && NoRepeats(s.goalStack)
  }

  /**
   * The new solver holds the eq goals and the impl goals of the list, each in list
   * order; impl goal `k` gets chain id `k + 1` at depth 0; nothing is on the stack,
   * nothing is bound or instantiated, and the invariants of the search hold.
   */
  lemma InitFacts(goals: seq<Goal>, clauses: seq<LegacyClauses.Clause>)
    ensures var s := Init(goals, clauses);
      && s.eqGoals == EqGoalsOf(goals) && s.clauses == clauses
      && |s.implGoals| == |ImplGoalsOf(goals)|
      && (forall k :: 0 <= k < |s.implGoals| ==>
            s.implGoals[k].goal == ImplGoalsOf(goals)[k] && s.implGoals[k].chainId == k + 1 && s.implGoals[k].depth == 0)
      && (forall j, k :: 0 <= j < k < |s.implGoals| ==> s.implGoals[j].chainId != s.implGoals[k].chainId)
      && s.goalStack == [] && s.matched.None? && s.instantiations == map[]
      && Valid(s)
  {
  }
}

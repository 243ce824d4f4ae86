/**
 * `HandleEqGoals` of the older solver: the eq goals are popped from the end of the list
 * one at a time and unified with the older recursive unifier; each match is merged
 * into the solver's bindings and applied to the eq goals still pending.  Once they are
 * all solved, the pending impl goals, the goal stack and the instantiations are
 * rewritten with the bindings.
 */
module LegacyEqGoals {
  import opened Wrappers
  import opened Terms
  import opened Substitution
  import LG = LegacyGoals
  import LegacyMatch
  import LegacyMatchFacts
  import EqGoals
  import Instantiations
  import TermMatches
  import opened LegacySolverStates

  /** The bindings after a match `m`: `m` itself before the first, else `_match.Merge(m)`. */
  function Next(matched: Option<Bindings>, m: Bindings, merge: (Bindings, Bindings) -> Bindings): Bindings {
    if matched.None? then m else merge(matched.value, m)
  }

  /** Where the drain stops: whether every goal was solved, the goals left and the bindings. */
  datatype DrainResult = DrainResult(ok: bool, eqGoals: seq<EqGoal>, matched: Option<Bindings>)

  /** The `while (_eqGoals.Count != 0)` loop of `HandleEqGoals`. */
  function Drain(eqGoals: seq<EqGoal>, matched: Option<Bindings>, merge: (Bindings, Bindings) -> Bindings): DrainResult
    decreases |eqGoals|
  {
    if eqGoals == [] then DrainResult(true, [], matched)
    else
      var n := |eqGoals| - 1;
      match LegacyMatch.Unify(eqGoals[n].left, eqGoals[n].right)
      case None => DrainResult(false, eqGoals[..n], matched)
      case Some(m) => Drain(EqGoals.SubstituteAll(eqGoals[..n], m), Some(Next(matched, m, merge)), merge)
  }

  function SubstituteImplGoals(goals: seq<RecImplGoalChain>, m: Bindings): (r: seq<RecImplGoalChain>)
    ensures |r| == |goals|
    ensures forall i :: 0 <= i < |goals| ==> r[i] == RecImplGoalChain(LG.Substitute(goals[i].goal, m), goals[i].chainId, goals[i].depth)
  {
    seq(|goals|, i requires 0 <= i < |goals| => RecImplGoalChain(LG.Substitute(goals[i].goal, m), goals[i].chainId, goals[i].depth))
  }

  function SubstituteStack(stack: seq<ImplGoalChain>, m: Bindings): (r: seq<ImplGoalChain>)
    ensures |r| == |stack| && forall i :: 0 <= i < |stack| ==> r[i] == SubstituteEntry(stack[i], m)
  {
    seq(|stack|, i requires 0 <= i < |stack| => SubstituteEntry(stack[i], m))
  }

  function SubstituteInstantiations(insts: map<string, Instantiations.Instatiation>, m: Bindings)
    : (r: map<string, Instantiations.Instatiation>)
    ensures r.Keys == insts.Keys
  {
    map k | k in insts :: Instantiations.Substitute(insts[k], TermMatches.TermMatch(m, []))
  }

  /** The rewriting after the drain, skipped when `_match` is still `null`. */
  function Applied(s: SolverState): SolverState {
    if s.matched.None? then s
    else
      var m := s.matched.value;
      s.(implGoals := SubstituteImplGoals(s.implGoals, m),
         goalStack := Dedup(SubstituteStack(s.goalStack, m)),
         instantiations := SubstituteInstantiations(s.instantiations, m))
  }

  /** `HandleEqGoals()`: whether every eq goal was solved, and the solver's fields afterwards. */
  function HandleEqGoals(s: SolverState, merge: (Bindings, Bindings) -> Bindings): (SolverState, bool) {
    if s.eqGoals == [] then (s, true)
    else
      var d := Drain(s.eqGoals, s.matched, merge);
      if !d.ok then (s.(eqGoals := d.eqGoals, matched := d.matched), false)
      else (Applied(s.(eqGoals := [], matched := d.matched)), true)
  }

  // ------------------------------------------------------------------ what the drain does

  /** A drain that succeeds leaves no goal, and leaves bindings once it has solved one. */
  lemma {:induction false} DrainEnds(eqGoals: seq<EqGoal>, matched: Option<Bindings>, merge: (Bindings, Bindings) -> Bindings)
    ensures Drain(eqGoals, matched, merge).ok ==> Drain(eqGoals, matched, merge).eqGoals == []
    ensures Drain(eqGoals, matched, merge).ok && (eqGoals != [] || matched.Some?) ==> Drain(eqGoals, matched, merge).matched.Some?
    decreases |eqGoals|
  {
    if eqGoals != [] {
      var n := |eqGoals| - 1;
      match LegacyMatch.Unify(eqGoals[n].left, eqGoals[n].right)
      case None =>
      case Some(m) => DrainEnds(EqGoals.SubstituteAll(eqGoals[..n], m), Some(Next(matched, m, merge)), merge);
    }
  }

  /** The variables of `t` that the bindings leave alone: all of them, or there are no bindings. */
  ghost predicate Untouched(t: Term, matched: Option<Bindings>) {
    matched.Some? ==> forall x :: x in FreeVars(t) ==> !LegacyMatch.Moves(matched.value, x)
  }

  ghost predicate GoalsUntouched(gs: seq<EqGoal>, matched: Option<Bindings>) {
    forall i :: 0 <= i < |gs| ==> Untouched(gs[i].left, matched) && Untouched(gs[i].right, matched)
  }

  /** Every goal of the list holds under the bindings. */
  ghost predicate Solved(gs: seq<EqGoal>, m: Bindings) {
    forall i :: 0 <= i < |gs| ==> Substitute(gs[i].left, m) == Substitute(gs[i].right, m)
  }

  /** With a merge that keeps equations, what the bindings make equal the later bindings keep equal. */
  lemma {:induction false} DrainRefines(eqGoals: seq<EqGoal>, m: Bindings, merge: (Bindings, Bindings) -> Bindings,
                                        a: Term, b: Term)
    requires KeepsEquated(merge, a, b) && Substitute(a, m) == Substitute(b, m)
    ensures var d := Drain(eqGoals, Some(m), merge);
      d.ok ==> d.matched.Some? && Substitute(a, d.matched.value) == Substitute(b, d.matched.value)
    decreases |eqGoals|
  {
    if eqGoals != [] {
      var n := |eqGoals| - 1;
      match LegacyMatch.Unify(eqGoals[n].left, eqGoals[n].right)
      case None =>
      case Some(u) =>
        var m1 := merge(m, u);
        assert Substitute(a, m1) == Substitute(b, m1);
        DrainRefines(EqGoals.SubstituteAll(eqGoals[..n], u), m1, merge, a, b);
    }
  }

  /** A variable a settled match leaves in a term is one the match does not move. */
  lemma ImageNotMoved(t: Term, u: Bindings, x: string)
    requires LegacyMatch.Settled(u) && x in FreeVars(Substitute(t, u))
    ensures !LegacyMatch.Moves(u, x)
    ensures x in FreeVars(t) || x in LegacyMatch.ValueVars(u)
  {
    LegacyMatch.SubstVars(t, u);
  }

  /** A variable neither moved before nor by the new match is not moved after. */
  lemma NextNotMoved(matched: Option<Bindings>, u: Bindings, merge: (Bindings, Bindings) -> Bindings, x: string)
    requires Composes(merge) && !LegacyMatch.Moves(u, x)
    requires matched.Some? ==> !LegacyMatch.Moves(matched.value, x)
    ensures !LegacyMatch.Moves(Next(matched, u, merge), x)
  {
    var v := FreeVar(x);
    SubstituteShape(v, u);
    if matched.Some? {
      SubstituteShape(v, matched.value);
      assert Substitute(v, Next(matched, u, merge)) == Substitute(Substitute(v, matched.value), u);
      SubstituteShape(v, Next(matched, u, merge));
    }
  }

  /**
   * One turn keeps the goals untouched: once the popped goal's match is applied, the
   * goals left mention only variables that neither the old bindings nor the match move ...
   */
  lemma TurnKeepsUntouched(h: Term, g: EqGoal, u: Bindings, matched: Option<Bindings>)
    requires LegacyMatch.Unify(g.left, g.right) == Some(u)
    requires Untouched(h, matched) && Untouched(g.left, matched) && Untouched(g.right, matched)
    ensures Untouched(Substitute(h, u), matched) && Untouched(Substitute(h, u), Some(u))
  {
    forall x | x in FreeVars(Substitute(h, u))
      ensures (matched.Some? ==> !LegacyMatch.Moves(matched.value, x)) && !LegacyMatch.Moves(u, x)
    {
      ImageNotMoved(h, u, x);
      assert LegacyMatch.Scope(u) <= FreeVars(g.left) + FreeVars(g.right);
    }
  }

  /** ... and neither do the merged bindings. */
  lemma TurnUntouched(h: Term, g: EqGoal, u: Bindings, matched: Option<Bindings>, merge: (Bindings, Bindings) -> Bindings)
    requires Composes(merge)
    requires LegacyMatch.Unify(g.left, g.right) == Some(u)
    requires Untouched(h, matched) && Untouched(g.left, matched) && Untouched(g.right, matched)
    ensures Untouched(Substitute(h, u), Some(Next(matched, u, merge)))
  {
    TurnKeepsUntouched(h, g, u, matched);
    forall x | x in FreeVars(Substitute(h, u)) ensures !LegacyMatch.Moves(Next(matched, u, merge), x) {
      NextNotMoved(matched, u, merge, x);
    }
  }

  /** Untouched by the bindings, a term is left as it is. */
  lemma UntouchedFixed(t: Term, m: Bindings)
    requires Untouched(t, Some(m))
    ensures Substitute(t, m) == t
  {
    LegacyMatch.SubstituteTrivial(t, m);
  }

  /** A term the earlier bindings leave alone sees only the new match in the merged bindings. */
  lemma NextSubstitute(t: Term, u: Bindings, matched: Option<Bindings>, merge: (Bindings, Bindings) -> Bindings)
    requires Composes(merge) && Untouched(t, matched)
    ensures Substitute(t, Next(matched, u, merge)) == Substitute(t, u)
  {
    if matched.Some? {
      UntouchedFixed(t, matched.value);
      assert Substitute(t, merge(matched.value, u)) == Substitute(Substitute(t, matched.value), u);
    }
  }

  /** After a turn, a term and its image under the popped goal's match look the same to the new bindings. */
  lemma TurnAgrees(h: Term, g: EqGoal, u: Bindings, matched: Option<Bindings>, merge: (Bindings, Bindings) -> Bindings)
    requires Composes(merge)
    requires LegacyMatch.Unify(g.left, g.right) == Some(u)
    requires Untouched(h, matched) && Untouched(g.left, matched) && Untouched(g.right, matched)
    ensures Substitute(h, Next(matched, u, merge)) == Substitute(Substitute(h, u), Next(matched, u, merge))
  {
    LegacyMatchFacts.SettledIdempotent(h, u);
    TurnKeepsUntouched(h, g, u, matched);
    NextSubstitute(h, u, matched, merge);
    NextSubstitute(Substitute(h, u), u, matched, merge);
  }

  /** After a turn, the popped goal holds under the new bindings. */
  lemma TurnSolves(g: EqGoal, u: Bindings, matched: Option<Bindings>, merge: (Bindings, Bindings) -> Bindings)
    requires Composes(merge)
    requires LegacyMatch.Unify(g.left, g.right) == Some(u)
    requires Untouched(g.left, matched) && Untouched(g.right, matched)
    ensures Substitute(g.left, Next(matched, u, merge)) == Substitute(g.right, Next(matched, u, merge))
  {
    LegacyMatchFacts.UnifySound(g.left, g.right);
    NextSubstitute(g.left, u, matched, merge);
    NextSubstitute(g.right, u, matched, merge);
  }

  /** The eq goals left after a turn are untouched by the new bindings. */
  lemma TurnGoalsUntouched(eqGoals: seq<EqGoal>, u: Bindings, matched: Option<Bindings>,
                           merge: (Bindings, Bindings) -> Bindings)
    requires Composes(merge) && eqGoals != [] && GoalsUntouched(eqGoals, matched)
    requires LegacyMatch.Unify(eqGoals[|eqGoals| - 1].left, eqGoals[|eqGoals| - 1].right) == Some(u)
    ensures GoalsUntouched(EqGoals.SubstituteAll(eqGoals[..|eqGoals| - 1], u), Some(Next(matched, u, merge)))
  {
    var n := |eqGoals| - 1;
    var rest := EqGoals.SubstituteAll(eqGoals[..n], u);
    forall i | 0 <= i < |rest|
      ensures Untouched(rest[i].left, Some(Next(matched, u, merge))) && Untouched(rest[i].right, Some(Next(matched, u, merge)))
    {
      TurnUntouched(eqGoals[i].left, eqGoals[n], u, matched, merge);
      TurnUntouched(eqGoals[i].right, eqGoals[n], u, matched, merge);
    }
  }

  /** One goal of a turn holds under the final bindings when the goals left after the turn all do. */
  lemma SolvedAt(eqGoals: seq<EqGoal>, u: Bindings, matched: Option<Bindings>, merge: (Bindings, Bindings) -> Bindings,
                 mf: Bindings, i: nat)
    requires Composes(merge) && eqGoals != [] && GoalsUntouched(eqGoals, matched) && i < |eqGoals|
    requires LegacyMatch.Unify(eqGoals[|eqGoals| - 1].left, eqGoals[|eqGoals| - 1].right) == Some(u)
    requires var d := Drain(EqGoals.SubstituteAll(eqGoals[..|eqGoals| - 1], u), Some(Next(matched, u, merge)), merge);
      d.ok && d.matched == Some(mf) && Solved(EqGoals.SubstituteAll(eqGoals[..|eqGoals| - 1], u), mf)
    ensures Substitute(eqGoals[i].left, mf) == Substitute(eqGoals[i].right, mf)
  {
    var n := |eqGoals| - 1;
    var g := eqGoals[n];
    var m1 := Next(matched, u, merge);
    var rest := EqGoals.SubstituteAll(eqGoals[..n], u);
    if i == n {
      TurnSolves(g, u, matched, merge);
      ComposesKeepsEquated(merge, g.left, g.right);
      DrainRefines(rest, m1, merge, g.left, g.right);
    } else {
      assert rest[i] == EqGoals.Substitute(eqGoals[i], u);
      TurnAgrees(eqGoals[i].left, g, u, matched, merge);
      TurnAgrees(eqGoals[i].right, g, u, matched, merge);
      ComposesKeepsEquated(merge, eqGoals[i].left, Substitute(eqGoals[i].left, u));
      ComposesKeepsEquated(merge, eqGoals[i].right, Substitute(eqGoals[i].right, u));
      DrainRefines(rest, m1, merge, eqGoals[i].left, Substitute(eqGoals[i].left, u));
      DrainRefines(rest, m1, merge, eqGoals[i].right, Substitute(eqGoals[i].right, u));
    }
  }

  /**
   * Soundness of `HandleEqGoals`: when the merge composes and the goals mention no
   * variable the bindings already move, a drain that succeeds ends with bindings
   * under which every goal it was given holds.
   */
  lemma {:induction false} DrainSolves(eqGoals: seq<EqGoal>, matched: Option<Bindings>, merge: (Bindings, Bindings) -> Bindings)
    requires Composes(merge) && GoalsUntouched(eqGoals, matched)
    ensures var d := Drain(eqGoals, matched, merge);
      d.ok && d.matched.Some? ==> Solved(eqGoals, d.matched.value)
    decreases |eqGoals|
  {
    if eqGoals != [] {
      var n := |eqGoals| - 1;
      match LegacyMatch.Unify(eqGoals[n].left, eqGoals[n].right)
      case None =>
      case Some(u) =>
        var m1 := Next(matched, u, merge);
        var rest := EqGoals.SubstituteAll(eqGoals[..n], u);
        TurnGoalsUntouched(eqGoals, u, matched, merge);
        DrainSolves(rest, Some(m1), merge);
        var d := Drain(rest, Some(m1), merge);
        if d.ok && d.matched.Some? {
          forall i | 0 <= i < |eqGoals| ensures Substitute(eqGoals[i].left, d.matched.value) == Substitute(eqGoals[i].right, d.matched.value) {
            SolvedAt(eqGoals, u, matched, merge, d.matched.value, i);
          }
        }
    }
  }

  // ------------------------------------------------------------------ what the rewriting keeps

  /**
   * `HandleEqGoals` keeps the invariants of the search, keeps every pending impl goal's
   * chain id, depth and slot, adds no goal, and fills no new slot.
   */
  lemma HandleEqGoalsKeeps(s: SolverState, merge: (Bindings, Bindings) -> Bindings)
    requires Valid(s)
    ensures var r := HandleEqGoals(s, merge).0;
      && Valid(r)
      && |r.implGoals| == |s.implGoals|
      && (forall i :: 0 <= i < |s.implGoals| ==>
            r.implGoals[i].chainId == s.implGoals[i].chainId && r.implGoals[i].depth == s.implGoals[i].depth
            && r.implGoals[i].goal.resolvesTo == s.implGoals[i].goal.resolvesTo)
      && r.instantiations.Keys == s.instantiations.Keys
      && r.clauses == s.clauses
  {
    var r := HandleEqGoals(s, merge).0;
    if s.eqGoals != [] && Drain(s.eqGoals, s.matched, merge).ok {
      var t := s.(eqGoals := [], matched := Drain(s.eqGoals, s.matched, merge).matched);
      if t.matched.Some? {
        var stack := SubstituteStack(t.goalStack, t.matched.value);
        forall i | 0 <= i < |r.goalStack| ensures r.goalStack[i].goal.resolvesTo in r.instantiations {
          assert r.goalStack[i] in stack;
        }
      }
    }
  }

  /** With no eq goal pending nothing changes, even when bindings were found before. */
  lemma NoEqGoalsNoChange(s: SolverState, merge: (Bindings, Bindings) -> Bindings)
    requires s.eqGoals == []
    ensures HandleEqGoals(s, merge) == (s, true)
  {
  }

  /**
   * When `HandleEqGoals` succeeds no eq goal is left, and, with a merge that composes
   * and eq goals untouched by the earlier bindings, every eq goal it was given holds
   * under the bindings it ends with.
   */
  lemma HandleEqGoalsSolves(s: SolverState, merge: (Bindings, Bindings) -> Bindings)
    requires Composes(merge) && GoalsUntouched(s.eqGoals, s.matched)
    ensures var (r, ok) := HandleEqGoals(s, merge);
      ok ==> r.eqGoals == [] && (s.eqGoals != [] ==> r.matched.Some? && Solved(s.eqGoals, r.matched.value))
  {
    DrainEnds(s.eqGoals, s.matched, merge);
    DrainSolves(s.eqGoals, s.matched, merge);
  }

  // ------------------------------------------------------------------ the loops

  /** The `_eqGoals[i] = _eqGoals[i].Substitute(match)` loop. */
  method RewriteEqGoals(goals: seq<EqGoal>, m: Bindings) returns (r: seq<EqGoal>)
    ensures r == EqGoals.SubstituteAll(goals, m)
  {
    r := goals;
    for i := 0 to |r|
      invariant |r| == |goals|
      invariant forall k :: 0 <= k < i ==> r[k] == EqGoals.Substitute(goals[k], m)
      invariant forall k :: i <= k < |r| ==> r[k] == goals[k]
    {
      r := r[i := EqGoals.Substitute(r[i], m)];
    }
  }

  /** The `_implGoals[i] = new RecImplGoalChain(...)` loop. */
  method RewriteImplGoals(goals: seq<RecImplGoalChain>, m: Bindings) returns (r: seq<RecImplGoalChain>)
    ensures r == SubstituteImplGoals(goals, m)
  {
    r := goals;
    for i := 0 to |r|
      invariant |r| == |goals|
      invariant forall k :: 0 <= k < i ==> r[k] == SubstituteImplGoals(goals, m)[k]
      invariant forall k :: i <= k < |r| ==> r[k] == goals[k]
    {
      r := r[i := RecImplGoalChain(LG.Substitute(r[i].goal, m), r[i].chainId, r[i].depth)];
    }
  }

  /** `new HashSet<ImplGoalChain>(_implGoalStack.Select(i => i.Substitute(_match)))`, one `Add` per entry. */
  method RewriteStack(stack: seq<ImplGoalChain>, m: Bindings) returns (r: seq<ImplGoalChain>)
    ensures r == Dedup(SubstituteStack(stack, m))
  {
    var all := SubstituteStack(stack, m);
    r := [];
    for i := 0 to |all|
      invariant r == Dedup(all[..i])
    {
      assert all[..i + 1][..i] == all[..i];
      var added := StackAdd(r, all[i]);
      r := added.1;
    }
    assert all[..|all|] == all;
  }

  /** The `foreach (var instName in _instatiations.Keys.ToList())` loop. */
  method RewriteInstantiations(insts: map<string, Instantiations.Instatiation>, m: Bindings)
    returns (r: map<string, Instantiations.Instatiation>)
    ensures r == SubstituteInstantiations(insts, m)
  {
    r := insts;
    var todo := insts.Keys;
    while todo != {}
      invariant todo <= r.Keys && r.Keys == insts.Keys
      invariant forall k :: k in r ==>
        r[k] == if k in todo then insts[k] else Instantiations.Substitute(insts[k], TermMatches.TermMatch(m, []))
      decreases todo
    {
      var instName :| instName in todo;
      r := r[instName := Instantiations.Substitute(r[instName], TermMatches.TermMatch(m, []))];
      todo := todo - {instName};
    }
  }
}

/**
 * What the worklist unifier delivers.  With the corrected right-hand rewrite the
 * bindings are idempotent and, once the postponed alias equations hold, they unify the
 * two terms.  Exactly as written, the loop can return bindings that do not unify them.
 */
module UnifierFacts {
  import opened Wrappers
  import opened Terms
  import opened TermFacts
  import opened Substitution
  import EqGoals
  import opened TermMatches
  import opened Unifier
  import Consts

  /** Every pending pair has equal sides under `m`. */
  ghost predicate Unifies(s: seq<(Term, Term)>, m: Bindings) {
    forall i :: 0 <= i < |s| ==> Substitute(s[i].0, m) == Substitute(s[i].1, m)
  }

  /** Substituting with `m` makes each binding `k := res[k]` hold. */
  ghost predicate Absorbs(res: Bindings, m: Bindings) {
    forall k :: k in res ==> Substitute(res[k], m) == Substitute(FreeVar(k), m)
  }

  /** Every goal has equal sides under `m`. */
  ghost predicate GoalsHold(gs: seq<EqGoal>, m: Bindings) {
    forall i :: 0 <= i < |gs| ==> Substitute(gs[i].left, m) == Substitute(gs[i].right, m)
  }

  /** The state the corrected loop keeps: solved bindings, no bound variable still pending. */
  ghost predicate Inv(w: Worklist) {
    Idempotent(w.result) && w.result.Keys !! StackVars(w.stack)
  }

  // ------------------------------------------------------------ replacement

  /** Replacing `?x` by a term that `th` makes equal to it does not change the result of `th`. */
  lemma {:induction false} ReplaceAgree(a: Term, x: string, t: Term, th: Bindings)
    requires Substitute(FreeVar(x), th) == Substitute(t, th)
    ensures Substitute(Substitute(a, map[x := t]), th) == Substitute(a, th)
    decreases a
  {
    SubstituteShape(a, map[x := t]);
    SubstituteShape(a, th);
    match a
    case App(h, args) =>
      var once := SubstituteArgs(args, map[x := t]);
      forall i | 0 <= i < |args| ensures Substitute(once[i], th) == Substitute(args[i], th) {
        ReplaceAgree(args[i], x, t, th);
      }
      SubstituteShape(App(h, once), th);
      assert SubstituteArgs(once, th) == SubstituteArgs(args, th);
    case Alias(p, q, n) =>
      ReplaceAgree(p, x, t, th);
      ReplaceAgree(q, x, t, th);
      SubstituteShape(Alias(Substitute(p, map[x := t]), Substitute(q, map[x := t]), n), th);
    case IrAlias(p, q, n) =>
      ReplaceAgree(p, x, t, th);
      ReplaceAgree(q, x, t, th);
      SubstituteShape(IrAlias(Substitute(p, map[x := t]), Substitute(q, map[x := t]), n), th);
    case _ =>
  }

  // ------------------------------------------------------------ the invariant

  /** Binding `?x := t` to a solved map, with `t` free of `?x` and of the map's keys, keeps it solved. */
  lemma BindIdempotent(res: Bindings, x: string, t: Term)
    requires Idempotent(res)
    requires FreeVars(t) !! res.Keys && x !in FreeVars(t)
    ensures Idempotent(SubstituteValues(res, x, t)[x := t])
  {
    var r := SubstituteValues(res, x, t)[x := t];
    assert r.Keys == res.Keys + {x};
    forall k | k in res && k != x
      ensures FreeVars(r[k]) !! r.Keys
    {
      BindValueDisjoint(res, x, t, k);
    }
  }

  /** An earlier binding with `?x` replaced mentions neither `?x` nor any bound variable. */
  lemma BindValueDisjoint(res: Bindings, x: string, t: Term, k: string)
    requires Idempotent(res) && k in res
    requires FreeVars(t) !! res.Keys && x !in FreeVars(t)
    ensures FreeVars(SubstituteValues(res, x, t)[k]) !! res.Keys + {x}
  {
    var v := res[k];
    var u := Substitute(v, map[x := t]);
    assert SubstituteValues(res, x, t)[k] == u;
    assert FreeVars(v) !! res.Keys;
    SubstituteOneVars(v, x, t);
    forall y | y in FreeVars(u) ensures y !in res.Keys && y != x {
      assert y in FreeVars(v) - {x} || y in FreeVars(t);
    }
  }

  lemma BindKeepsInv(w: Worklist, x: string, t: Term)
    requires w.stack != []
    requires w.stack[|w.stack| - 1] == (FreeVar(x), t) || w.stack[|w.stack| - 1] == (t, FreeVar(x))
    requires x !in FreeVars(t)
    requires Inv(w)
    ensures Inv(Bind(w, w.stack[..|w.stack| - 1], x, t, t))
  {
    var n := |w.stack| - 1;
    var rest := w.stack[..n];
    assert w.stack == rest + [w.stack[n]];
    StackConcat(rest, [w.stack[n]]);
    assert StackVars([w.stack[n]]) == {x} + FreeVars(t);
    SubstPairsVars(rest, x, t);
    BindIdempotent(w.result, x, t);
  }

  /** The corrected step keeps the bindings solved and disjoint from the pending pairs. */
  lemma StepKeepsInv(w: Worklist)
    requires w.stack != [] && Inv(w)
    ensures Step(w, Corrected).Some? ==> Inv(Step(w, Corrected).value)
  {
    var n := |w.stack| - 1;
    var left := w.stack[n].0;
    var right := w.stack[n].1;
    StepProgress(w, Corrected);
    if Step(w, Corrected).Some? {
      if left.FreeVar? && !(right.FreeVar? && right.name == left.name) {
        OccursIffFreeVar(right, left.name);
        BindKeepsInv(w, left.name, right);
      } else if !left.FreeVar? && right.FreeVar? {
        OccursIffFreeVar(left, right.name);
        BindKeepsInv(w, right.name, left);
      }
    }
  }

  lemma {:induction false} SolveKeepsInv(w: Worklist)
    requires Inv(w) && Solve(w, Corrected).Some?
    ensures Idempotent(Solve(w, Corrected).value.0)
    decreases |StackVars(w.stack)|, StackSize(w.stack)
  {
    if w.stack != [] {
      var w' := Step(w, Corrected).value;
      StepProgress(w, Corrected);
      SubsetCard(StackVars(w'.stack), StackVars(w.stack));
      StepKeepsInv(w);
      SolveKeepsInv(w');
    }
  }

  lemma StepLateGrows(w: Worklist, v: Variant)
    requires w.stack != [] && Step(w, v).Some?
    ensures w.lateGoals <= Step(w, v).value.lateGoals
  {
  }

  /** The loop only appends to the late goals. */
  lemma {:induction false} SolveLateGrows(w: Worklist, v: Variant)
    requires Solve(w, v).Some?
    ensures w.lateGoals <= Solve(w, v).value.1
    decreases |StackVars(w.stack)|, StackSize(w.stack)
  {
    if w.stack != [] {
      var w' := Step(w, v).value;
      StepProgress(w, v);
      SubsetCard(StackVars(w'.stack), StackVars(w.stack));
      SolveLateGrows(w', v);
      StepLateGrows(w, v);
      var last := Solve(w', v).value.1;
      assert w.lateGoals == w'.lateGoals[..|w.lateGoals|] == last[..|w.lateGoals|];
    }
  }

  // ------------------------------------------------------------- soundness

  lemma BindSound(w: Worklist, x: string, t: Term, m: Bindings)
    requires w.stack != []
    requires x !in w.result
    requires Unifies(Bind(w, w.stack[..|w.stack| - 1], x, t, t).stack, m)
    requires Absorbs(Bind(w, w.stack[..|w.stack| - 1], x, t, t).result, m)
    ensures Substitute(FreeVar(x), m) == Substitute(t, m)
    ensures Unifies(w.stack[..|w.stack| - 1], m)
    ensures Absorbs(w.result, m)
  {
    var rest := w.stack[..|w.stack| - 1];
    var w' := Bind(w, rest, x, t, t);
    assert w'.result[x] == t;
    forall i | 0 <= i < |rest|
      ensures Substitute(rest[i].0, m) == Substitute(rest[i].1, m)
    {
      ReplaceAgree(rest[i].0, x, t, m);
      ReplaceAgree(rest[i].1, x, t, m);
    }
    forall k | k in w.result
      ensures Substitute(w.result[k], m) == Substitute(FreeVar(k), m)
    {
      ReplaceAgree(w.result[k], x, t, m);
    }
  }

  lemma UnifiesSplit(s: seq<(Term, Term)>, e: seq<(Term, Term)>, m: Bindings)
    ensures Unifies(s + e, m) <==> Unifies(s, m) && Unifies(e, m)
  {
    if Unifies(s, m) && Unifies(e, m) {
      forall i | 0 <= i < |s + e| ensures Substitute((s + e)[i].0, m) == Substitute((s + e)[i].1, m) {
        if i >= |s| {
          assert (s + e)[i] == e[i - |s|];
        }
      }
    }
    if Unifies(s + e, m) {
      forall i | 0 <= i < |s| ensures Substitute(s[i].0, m) == Substitute(s[i].1, m) {
        assert (s + e)[i] == s[i];
      }
      forall i | 0 <= i < |e| ensures Substitute(e[i].0, m) == Substitute(e[i].1, m) {
        assert (s + e)[|s| + i] == e[i];
      }
    }
  }

  /** Apps whose argument pairs are unified are unified. */
  lemma AppUnifies(a: Term, b: Term, m: Bindings)
    requires a.App? && b.App? && a.head == b.head && |a.args| == |b.args|
    requires Unifies(Zip(a.args, b.args), m)
    ensures Substitute(a, m) == Substitute(b, m)
  {
    SubstituteShape(a, m);
    SubstituteShape(b, m);
    assert forall i :: 0 <= i < |a.args| ==> Zip(a.args, b.args)[i] == (a.args[i], b.args[i]);
    assert SubstituteArgs(a.args, m) == SubstituteArgs(b.args, m);
  }

  lemma IrAliasUnifies(a: Term, b: Term, m: Bindings)
    requires a.IrAlias? && b.IrAlias? && a.name == b.name
    requires Unifies([(a.target, b.target), (a.traitTerm, b.traitTerm)], m)
    ensures Substitute(a, m) == Substitute(b, m)
  {
    SubstituteShape(a, m);
    SubstituteShape(b, m);
    var pairs := [(a.target, b.target), (a.traitTerm, b.traitTerm)];
    assert pairs[0] == (a.target, b.target) && pairs[1] == (a.traitTerm, b.traitTerm);
    assert Substitute(a.target, m) == Substitute(b.target, m);
    assert Substitute(a.traitTerm, m) == Substitute(b.traitTerm, m);
  }

  /** A corrected step that goes on is sound: what unifies the state after it unifies the state before. */
  lemma StepSound(w: Worklist, m: Bindings)
    requires w.stack != [] && Inv(w)
    requires Step(w, Corrected).Some?
    requires Unifies(Step(w, Corrected).value.stack, m)
    requires Absorbs(Step(w, Corrected).value.result, m)
    requires GoalsHold(Step(w, Corrected).value.lateGoals, m)
    ensures Unifies(w.stack, m) && Absorbs(w.result, m)
  {
    var n := |w.stack| - 1;
    if w.stack[n].0.FreeVar? || w.stack[n].1.FreeVar? {
      StepSoundBinding(w, m);
    } else {
      StepSoundStructural(w, m);
    }
  }

  /** `StepSound` when the popped pair has a variable side. */
  lemma StepSoundBinding(w: Worklist, m: Bindings)
    requires w.stack != [] && Inv(w)
    requires w.stack[|w.stack| - 1].0.FreeVar? || w.stack[|w.stack| - 1].1.FreeVar?
    requires Step(w, Corrected).Some?
    requires Unifies(Step(w, Corrected).value.stack, m)
    requires Absorbs(Step(w, Corrected).value.result, m)
    ensures Unifies(w.stack, m) && Absorbs(w.result, m)
  {
    var n := |w.stack| - 1;
    var left := w.stack[n].0;
    var right := w.stack[n].1;
    var rest := w.stack[..n];
    assert w.stack == rest + [w.stack[n]];
    StackConcat(rest, [w.stack[n]]);
    if left.FreeVar? && !(right.FreeVar? && right.name == left.name) {
      BindSound(w, left.name, right, m);
      SubstituteShape(left, m);
    } else if !left.FreeVar? {
      BindSound(w, right.name, left, m);
      SubstituteShape(right, m);
    } else {
      assert Step(w, Corrected).value.stack == rest;
    }
    UnifiesSplit(rest, [w.stack[n]], m);
  }

  /** `StepSound` when neither side of the popped pair is a variable. */
  lemma StepSoundStructural(w: Worklist, m: Bindings)
    requires w.stack != []
    requires !w.stack[|w.stack| - 1].0.FreeVar? && !w.stack[|w.stack| - 1].1.FreeVar?
    requires Step(w, Corrected).Some?
    requires Unifies(Step(w, Corrected).value.stack, m)
    requires Absorbs(Step(w, Corrected).value.result, m)
    requires GoalsHold(Step(w, Corrected).value.lateGoals, m)
    ensures Unifies(w.stack, m) && Absorbs(w.result, m)
  {
    var n := |w.stack| - 1;
    var left := w.stack[n].0;
    var right := w.stack[n].1;
    var rest := w.stack[..n];
    var w' := Step(w, Corrected).value;
    if left.Alias? || right.Alias? {
      assert w'.lateGoals[|w'.lateGoals| - 1] == EqGoals.EqGoal(left, right);
      assert w'.stack == rest;
    } else if left.App? && right.App? {
      UnifiesSplit(rest, Zip(left.args, right.args), m);
      AppUnifies(left, right, m);
    } else if left.IrAlias? && right.IrAlias? {
      UnifiesSplit(rest, [(left.target, right.target), (left.traitTerm, right.traitTerm)], m);
      IrAliasUnifies(left, right, m);
    } else {
      assert w'.stack == rest;
    }
    assert w.stack == rest + [w.stack[n]];
    UnifiesSplit(rest, [w.stack[n]], m);
  }

  lemma {:induction false} SolveSound(w: Worklist, m: Bindings, late: seq<EqGoal>)
    requires Inv(w)
    requires Solve(w, Corrected) == Some((m, late))
    requires GoalsHold(late, m)
    ensures Unifies(w.stack, m) && Absorbs(w.result, m)
    decreases |StackVars(w.stack)|, StackSize(w.stack)
  {
    if w.stack == [] {
      forall k | k in m ensures Substitute(m[k], m) == Substitute(FreeVar(k), m) {
        SubstituteUnmapped(m[k], m);
        SubstituteShape(FreeVar(k), m);
      }
    } else {
      var w' := Step(w, Corrected).value;
      StepProgress(w, Corrected);
      SubsetCard(StackVars(w'.stack), StackVars(w.stack));
      StepKeepsInv(w);
      SolveSound(w', m, late);
      SolveLateGrows(w', Corrected);
      StepSound(w, m);
    }
  }

  /**
   * The corrected `InternalTryMatch`: its bindings are idempotent, and once every late
   * goal it hands back has equal sides, they make the two terms equal.
   */
  lemma MatchSound(l: Term, r: Term, m: TermMatch)
    requires MatchResult(l, r, Corrected) == Some(m)
    requires forall i :: 0 <= i < |m.lateGoals| ==> m.lateGoals[i].left == m.lateGoals[i].right
    ensures Substitute(l, m.substitutions) == Substitute(r, m.substitutions)
  {
    var res := Solve(Init(l, r), Corrected).value;
    assert StackVars(Init(l, r).stack) == FreeVars(l) + FreeVars(r);
    SolveSound(Init(l, r), res.0, res.1);
  }

  /** The corrected bindings are idempotent and no bound variable is left in a late goal. */
  lemma MatchIdempotent(l: Term, r: Term, m: TermMatch)
    requires MatchResult(l, r, Corrected) == Some(m)
    ensures Idempotent(m.substitutions)
    ensures forall i :: 0 <= i < |m.lateGoals| ==>
      FreeVars(m.lateGoals[i].left) !! m.substitutions.Keys && FreeVars(m.lateGoals[i].right) !! m.substitutions.Keys
  {
    var res := Solve(Init(l, r), Corrected).value;
    SolveKeepsInv(Init(l, r));
    forall i | 0 <= i < |m.lateGoals|
      ensures FreeVars(m.lateGoals[i].left) !! m.substitutions.Keys && FreeVars(m.lateGoals[i].right) !! m.substitutions.Keys
    {
      EqGoals.SubstituteIdempotent(res.1[i], res.0);
    }
  }

  // ------------------------------------------------------------- variables

  /** Every variable the worklist binds or mentions is one of `vs`. */
  ghost predicate Within(w: Worklist, vs: set<string>) {
    && w.result.Keys <= vs
    && (forall k :: k in w.result ==> FreeVars(w.result[k]) <= vs)
    && StackVars(w.stack) <= vs
  }

  /** Binding `?x := value` keeps the bindings within `vs` when `x` and `value` are. */
  lemma BindWithin(res: Bindings, x: string, value: Term, vs: set<string>)
    requires res.Keys <= vs && (forall k :: k in res ==> FreeVars(res[k]) <= vs)
    requires x in vs && FreeVars(value) <= vs
    ensures var r := SubstituteValues(res, x, value)[x := value];
            r.Keys <= vs && forall k :: k in r ==> FreeVars(r[k]) <= vs
  {
    forall k | k in res ensures FreeVars(Substitute(res[k], map[x := value])) <= vs {
      SubstituteOneVars(res[k], x, value);
    }
  }

  lemma StepWithin(w: Worklist, v: Variant, vs: set<string>)
    requires w.stack != [] && Within(w, vs)
    ensures Step(w, v).Some? ==> Within(Step(w, v).value, vs)
  {
    var n := |w.stack| - 1;
    var left := w.stack[n].0;
    var right := w.stack[n].1;
    var rest := w.stack[..n];
    assert w.stack == rest + [w.stack[n]];
    StackConcat(rest, [w.stack[n]]);
    assert StackVars([w.stack[n]]) == FreeVars(left) + FreeVars(right);
    StepProgress(w, v);
    if left.FreeVar? && !(right.FreeVar? && right.name == left.name) {
      BindWithin(w.result, left.name, right, vs);
    } else if !left.FreeVar? && right.FreeVar? {
      BindWithin(w.result, right.name, left, vs);
    }
  }

  lemma {:induction false} SolveWithin(w: Worklist, v: Variant, vs: set<string>)
    requires Within(w, vs) && Solve(w, v).Some?
    ensures Solve(w, v).value.0.Keys <= vs
    ensures forall k :: k in Solve(w, v).value.0 ==> FreeVars(Solve(w, v).value.0[k]) <= vs
    decreases |StackVars(w.stack)|, StackSize(w.stack)
  {
    if w.stack != [] {
      var w' := Step(w, v).value;
      StepProgress(w, v);
      SubsetCard(StackVars(w'.stack), StackVars(w.stack));
      StepWithin(w, v, vs);
      SolveWithin(w', v, vs);
    }
  }

  /** A match binds only variables of the two terms, to values built from their variables. */
  lemma MatchVars(l: Term, r: Term, v: Variant, m: TermMatch)
    requires MatchResult(l, r, v) == Some(m)
    ensures m.substitutions.Keys <= FreeVars(l) + FreeVars(r)
    ensures forall k :: k in m.substitutions ==> FreeVars(m.substitutions[k]) <= FreeVars(l) + FreeVars(r)
  {
    assert StackVars(Init(l, r).stack) == FreeVars(l) + FreeVars(r);
    SolveWithin(Init(l, r), v, FreeVars(l) + FreeVars(r));
  }

  // ----------------------------------------------------- occurs check, reflexivity

  /** A variable never matches a larger term that contains it, on either side. */
  lemma OccursCheckFails(x: string, t: Term, v: Variant)
    requires t != FreeVar(x) && x in FreeVars(t)
    ensures MatchResult(FreeVar(x), t, v) == None
    ensures MatchResult(t, FreeVar(x), v) == None
  {
    OccursIffFreeVar(t, x);
    assert Step(Init(FreeVar(x), t), v) == None;
    assert Step(Init(t, FreeVar(x)), v) == None;
  }

  /** Neither a `Const` nor a `ConstBoundVar` node anywhere in the term. */
  predicate NoConstNodes(t: Term)
    decreases t
  {
    match t
    case Const(_) => false
    case ConstBoundVar(_) => false
    case App(_, args) => forall i :: 0 <= i < |args| ==> NoConstNodes(args[i])
    case Alias(a, b, _) => NoConstNodes(a) && NoConstNodes(b)
    case IrAlias(a, b, _) => NoConstNodes(a) && NoConstNodes(b)
    case _ => true
  }

  /** Constants fall through to the final `else`: a constant does not even match itself. */
  lemma ConstNeverMatches(c: Consts.ConstName, i: int, v: Variant)
    ensures MatchResult(Const(c), Const(c), v) == None
    ensures MatchResult(ConstBoundVar(i), ConstBoundVar(i), v) == None
  {
    assert Step(Init(Const(c), Const(c)), v) == None;
    assert Step(Init(ConstBoundVar(i), ConstBoundVar(i)), v) == None;
  }

  ghost predicate SamePairs(s: seq<(Term, Term)>) {
    forall i :: 0 <= i < |s| ==> s[i].0 == s[i].1 && NoConstNodes(s[i].0)
  }

  ghost predicate SameGoals(gs: seq<EqGoal>) {
    forall i :: 0 <= i < |gs| ==> gs[i].left == gs[i].right
  }

  lemma StepSame(w: Worklist, v: Variant)
    requires w.stack != [] && w.result == map[]
    requires SamePairs(w.stack) && SameGoals(w.lateGoals)
    ensures Step(w, v).Some?
    ensures Step(w, v).value.result == map[]
    ensures SamePairs(Step(w, v).value.stack) && SameGoals(Step(w, v).value.lateGoals)
  {
    var n := |w.stack| - 1;
    var t := w.stack[n].0;
    var rest := w.stack[..n];
    assert SamePairs(rest) by {
      assert forall i :: 0 <= i < n ==> rest[i] == w.stack[i];
    }
    if t.App? {
      var s := rest + Zip(t.args, t.args);
      assert forall i :: n <= i < |s| ==> s[i] == (t.args[i - n], t.args[i - n]);
    }
  }

  lemma {:induction false} SolveSame(w: Worklist, v: Variant)
    requires w.result == map[]
    requires SamePairs(w.stack) && SameGoals(w.lateGoals)
    ensures Solve(w, v).Some?
    ensures Solve(w, v).value.0 == map[] && SameGoals(Solve(w, v).value.1)
    decreases |StackVars(w.stack)|, StackSize(w.stack)
  {
    if w.stack != [] {
      StepSame(w, v);
      var w' := Step(w, v).value;
      StepProgress(w, v);
      SubsetCard(StackVars(w'.stack), StackVars(w.stack));
      SolveSame(w', v);
    }
  }

  /** A term without constants matches itself, with no binding and only trivial late goals. */
  lemma MatchSelf(t: Term, v: Variant)
    requires NoConstNodes(t)
    ensures MatchResult(t, t, v).Some?
    ensures MatchResult(t, t, v).value.substitutions == map[]
    ensures forall i :: 0 <= i < |MatchResult(t, t, v).value.lateGoals| ==>
      MatchResult(t, t, v).value.lateGoals[i].left == MatchResult(t, t, v).value.lateGoals[i].right
  {
    SolveSame(Init(t, t), v);
  }
}

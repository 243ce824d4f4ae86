/**
 * What the older unifier delivers: bindings that make the two terms equal, that are
 * stable under a second substitution, and that a term unified with itself moves no
 * variable; the failure cases; and a worked match.
 */
module LegacyMatchFacts {
  import opened Wrappers
  import opened Terms
  import opened Substitution
  import LegacyTerms
  import TermMatches
  import U = Unifier
  import UF = UnifierFacts
  import opened LegacyMatch

  // ---------------------------------------------------------------- soundness

  /** When `f` makes every binding of `u` hold, substituting with `u` first changes nothing under `f`. */
  lemma {:induction false} AbsorbsSubst(t: Term, u: Bindings, f: Bindings)
    requires UF.Absorbs(u, f)
    ensures Substitute(Substitute(t, u), f) == Substitute(t, f)
    decreases t
  {
    SubstituteShape(t, u);
    SubstituteShape(t, f);
    match t
    case FreeVar(x) =>
    case App(h, args) =>
      var once := SubstituteArgs(args, u);
      forall i | 0 <= i < |args| ensures Substitute(once[i], f) == Substitute(args[i], f) {
        AbsorbsSubst(args[i], u, f);
      }
      SubstituteShape(App(h, once), f);
      assert SubstituteArgs(once, f) == SubstituteArgs(args, f);
    case Alias(p, q, n) =>
      AbsorbsSubst(p, u, f);
      AbsorbsSubst(q, u, f);
      SubstituteShape(Alias(Substitute(p, u), Substitute(q, u), n), f);
    case IrAlias(p, q, n) =>
      AbsorbsSubst(p, u, f);
      AbsorbsSubst(q, u, f);
      SubstituteShape(IrAlias(Substitute(p, u), Substitute(q, u), n), f);
    case _ =>
  }

  /** The bindings `Unify` returns make the two sides equal. */
  lemma {:induction false} UnifySound(l: Term, r: Term)
    requires Unify(l, r).Some?
    ensures Substitute(l, Unify(l, r).value) == Substitute(r, Unify(l, r).value)
    decreases |FreeVars(l) + FreeVars(r)|, Size(l) + Size(r), 0
  {
    var m := Unify(l, r).value;
    if l.FreeVar? {
      if !(r.FreeVar? && r.name == l.name) {
        LegacyTerms.OccursIffFreeVar(r, l.name);
        BindingSound(l.name, r);
      }
    } else if r.FreeVar? {
      LegacyTerms.OccursIffFreeVar(l, r.name);
      BindingSound(r.name, l);
    } else if l.App? {
      ArgPairsMeasure(l, r);
      assert Scope(map[]) == {};
      UnifyPairsSound(ArgPairs(l, r), map[]);
      AppFromPairs(l, r, m);
    }
  }

  /** `?x := t` makes `?x` and `t` equal when `?x` does not occur in `t`. */
  lemma BindingSound(x: string, t: Term)
    requires x !in FreeVars(t)
    ensures Substitute(FreeVar(x), map[x := t]) == Substitute(t, map[x := t])
  {
    SubstituteShape(FreeVar(x), map[x := t]);
    SubstituteUnmapped(t, map[x := t]);
  }

  /** Apps whose reversed argument pairs are made equal are made equal. */
  lemma AppFromPairs(l: Term, r: Term, m: Bindings)
    requires l.App? && r.App? && l.head == r.head && |l.args| == |r.args|
    requires UF.Unifies(ArgPairs(l, r), m)
    ensures Substitute(l, m) == Substitute(r, m)
  {
    var z := U.Zip(l.args, r.args);
    ReversedFacts(z);
    forall i | 0 <= i < |z| ensures Substitute(z[i].0, m) == Substitute(z[i].1, m) {
      assert z[i] == ArgPairs(l, r)[|z| - 1 - i];
    }
    UF.AppUnifies(l, r, m);
  }

  /**
   * The loop's bindings make every pair still to do equal and every binding so far
   * hold.
   */
  lemma {:induction false} UnifyPairsSound(stack: Pairs, result: Bindings)
    requires Settled(result) && Fresh(result, stack)
    requires UnifyPairs(stack, result).Some?
    ensures UF.Unifies(stack, UnifyPairs(stack, result).value)
    ensures UF.Absorbs(result, UnifyPairs(stack, result).value)
    decreases |U.StackVars(stack)|, U.StackSize(stack), 1
  {
    var f := UnifyPairs(stack, result).value;
    if stack == [] {
      forall x | x in result ensures Substitute(result[x], result) == Substitute(FreeVar(x), result) {
        SubstituteShape(FreeVar(x), result);
        SubstituteTrivial(result[x], result);
      }
    } else {
      var n := |stack| - 1;
      PopMeasure(stack);
      var u := Unify(stack[n].0, stack[n].1).value;
      UnifySound(stack[n].0, stack[n].1);
      PopStep(stack, result, u);
      UnifyPairsSound(U.SubstPairs(stack[..n], u), TermMatches.Merged(result, u));
      SoundStep(stack, result, u, f);
    }
  }

  /** One turn of the loop: what makes the pairs left and the merged bindings hold makes the popped pair and the bindings before hold. */
  lemma SoundStep(stack: Pairs, result: Bindings, u: Bindings, f: Bindings)
    requires stack != []
    requires Fresh(result, stack)
    requires Within(u, FreeVars(stack[|stack| - 1].0) + FreeVars(stack[|stack| - 1].1))
    requires Substitute(stack[|stack| - 1].0, u) == Substitute(stack[|stack| - 1].1, u)
    requires UF.Unifies(U.SubstPairs(stack[..|stack| - 1], u), f)
    requires UF.Absorbs(TermMatches.Merged(result, u), f)
    ensures UF.Unifies(stack, f) && UF.Absorbs(result, f)
  {
    PopMeasure(stack);
    MergedAbsorbs(result, u, f);
    StackStep(stack, u, f);
    ResultStep(stack, result, u, f);
  }

  /** The new bindings win in the merge, so `f` makes them hold. */
  lemma MergedAbsorbs(result: Bindings, u: Bindings, f: Bindings)
    requires UF.Absorbs(TermMatches.Merged(result, u), f)
    ensures UF.Absorbs(u, f)
  {
    var merged := TermMatches.Merged(result, u);
    forall x | x in u ensures Substitute(u[x], f) == Substitute(FreeVar(x), f) {
      assert merged[x] == u[x];
    }
  }

  lemma StackStep(stack: Pairs, u: Bindings, f: Bindings)
    requires stack != []
    requires UF.Absorbs(u, f)
    requires Substitute(stack[|stack| - 1].0, u) == Substitute(stack[|stack| - 1].1, u)
    requires UF.Unifies(U.SubstPairs(stack[..|stack| - 1], u), f)
    ensures UF.Unifies(stack, f)
  {
    var n := |stack| - 1;
    var next := U.SubstPairs(stack[..n], u);
    forall i | 0 <= i < |stack| ensures Substitute(stack[i].0, f) == Substitute(stack[i].1, f) {
      AbsorbsSubst(stack[i].0, u, f);
      AbsorbsSubst(stack[i].1, u, f);
      if i < n {
        assert next[i] == (Substitute(stack[i].0, u), Substitute(stack[i].1, u));
      }
    }
  }

  lemma ResultStep(stack: Pairs, result: Bindings, u: Bindings, f: Bindings)
    requires stack != []
    requires Fresh(result, stack)
    requires u.Keys <= U.StackVars(stack)
    requires UF.Absorbs(u, f)
    requires UF.Absorbs(TermMatches.Merged(result, u), f)
    ensures UF.Absorbs(result, f)
  {
    var merged := TermMatches.Merged(result, u);
    forall x | x in result ensures Substitute(result[x], f) == Substitute(FreeVar(x), f) {
      if x in u {
        assert !Moves(result, x);
      } else {
        assert merged[x] == Substitute(result[x], u);
        AbsorbsSubst(result[x], u, f);
      }
    }
  }

  /** Substituting with settled bindings a second time changes nothing. */
  lemma SettledIdempotent(t: Term, m: Bindings)
    requires Settled(m)
    ensures Substitute(Substitute(t, m), m) == Substitute(t, m)
  {
    SubstVars(t, m);
    SubstituteTrivial(Substitute(t, m), m);
  }

  /** A match binds only variables of the two terms, to terms over their variables, and applying it twice is applying it once. */
  lemma UnifyIdempotent(l: Term, r: Term, t: Term)
    requires Unify(l, r).Some?
    ensures Unify(l, r).value.Keys <= FreeVars(l) + FreeVars(r)
    ensures forall x :: x in Unify(l, r).value ==> FreeVars(Unify(l, r).value[x]) <= FreeVars(l) + FreeVars(r)
    ensures Substitute(Substitute(t, Unify(l, r).value), Unify(l, r).value) == Substitute(t, Unify(l, r).value)
  {
    var m := Unify(l, r).value;
    forall x, y | x in m && y in FreeVars(m[x]) ensures y in FreeVars(l) + FreeVars(r) {
      assert y in ValueVars(m);
    }
    SettledIdempotent(t, m);
  }

  // ---------------------------------------------------------------- unifying a term with itself

  /** Only Apps, FreeVars and BoundVars: the nodes the older unifier takes apart or binds. */
  predicate Plain(t: Term)
    decreases t
  {
    match t
    case App(_, args) => forall i :: 0 <= i < |args| ==> Plain(args[i])
    case FreeVar(_) => true
    case BoundVar(_) => true
    case _ => false
  }

  /** Every binding is the variable itself. */
  predicate Trivial(m: Bindings) {
    forall x :: x in m ==> m[x] == FreeVar(x)
  }

  /** A plain term unifies with itself, and every binding it yields is a variable bound to itself. */
  lemma {:induction false} SelfUnify(t: Term)
    requires Plain(t)
    ensures Unify(t, t).Some? && Trivial(Unify(t, t).value)
    decreases |FreeVars(t) + FreeVars(t)|, Size(t) + Size(t), 0
  {
    if t.App? {
      ArgPairsMeasure(t, t);
      assert Scope(map[]) == {};
      var z := U.Zip(t.args, t.args);
      ReversedFacts(z);
      UnifyPairsSelf(ArgPairs(t, t), map[]);
    }
  }

  lemma {:induction false} UnifyPairsSelf(stack: Pairs, result: Bindings)
    requires Settled(result) && Fresh(result, stack) && Trivial(result)
    requires forall i :: 0 <= i < |stack| ==> stack[i].0 == stack[i].1 && Plain(stack[i].0)
    ensures UnifyPairs(stack, result).Some? && Trivial(UnifyPairs(stack, result).value)
    decreases |U.StackVars(stack)|, U.StackSize(stack), 1
  {
    if stack != [] {
      var n := |stack| - 1;
      PopMeasure(stack);
      SelfUnify(stack[n].0);
      var u := Unify(stack[n].0, stack[n].1).value;
      SubstPairsTrivial(stack[..n], u);
      MergedTrivial(result, u);
      var merged := TermMatches.Merged(result, u);
      U.SubsetCard(U.StackVars(stack[..n]), U.StackVars(stack));
      assert forall i :: 0 <= i < n ==> stack[..n][i] == stack[i];
      UnifyPairsSelf(stack[..n], merged);
      assert UnifyPairs(stack, result) == UnifyPairs(stack[..n], merged);
    }
  }

  lemma MergedTrivial(result: Bindings, u: Bindings)
    requires Trivial(result) && Trivial(u)
    ensures Trivial(TermMatches.Merged(result, u))
    ensures Settled(TermMatches.Merged(result, u))
    ensures forall s :: Fresh(TermMatches.Merged(result, u), s)
  {
    var merged := TermMatches.Merged(result, u);
    forall x | x in merged ensures merged[x] == FreeVar(x) {
      if Moves(merged, x) {
        MergedMoves(result, u, x);
      }
    }
  }

  // ---------------------------------------------------------------- failures

  /** A variable never unifies with a different term it occurs in, on either side. */
  lemma OccursCheckFails(x: string, t: Term)
    requires x in FreeVars(t) && t != FreeVar(x)
    ensures Unify(FreeVar(x), t) == None && Unify(t, FreeVar(x)) == None
  {
    LegacyTerms.OccursIffFreeVar(t, x);
  }

  /** A variable unified with itself is bound to itself. */
  lemma SameVariable(x: string)
    ensures Unify(FreeVar(x), FreeVar(x)) == Some(map[x := FreeVar(x)])
  {
  }

  /** A variable unified with a term it does not occur in is bound to that term, on either side. */
  lemma BindsVariable(x: string, t: Term)
    requires x !in FreeVars(t)
    ensures Unify(FreeVar(x), t) == Some(map[x := t])
    ensures !t.FreeVar? ==> Unify(t, FreeVar(x)) == Some(map[x := t])
  {
    LegacyTerms.OccursIffFreeVar(t, x);
  }

  /** Apps of different heads or arities never unify. */
  lemma HeadMismatchFails(l: Term, r: Term)
    requires l.App? && r.App? && (l.head != r.head || |l.args| != |r.args|)
    ensures Unify(l, r) == None
  {
  }

  /** BoundVars unify, with no binding, exactly when their indices agree. */
  lemma BoundVarsUnify(i: int, j: int)
    ensures Unify(BoundVar(i), BoundVar(j)) == if i == j then Some(map[]) else None
  {
  }

  /** A pairing without a FreeVar that is not two Apps or two BoundVars fails. */
  lemma OtherPairsFail(l: Term, r: Term)
    requires !l.FreeVar? && !r.FreeVar?
    requires !(l.App? && r.App?) && !(l.BoundVar? && r.BoundVar?)
    ensures Unify(l, r) == None
  {
  }

  /** `Match` throws exactly where `TryMatch` gives `null`. */
  lemma ThrowsIffNull(l: Term, r: Term)
    ensures Outcome(l, r, true) == Thrown <==> Outcome(l, r, false) == NoMatch
    ensures Outcome(l, r, true).Matched? ==> Outcome(l, r, false) == Outcome(l, r, true)
  {
  }

  // ---------------------------------------------------------------- a worked match

  /**
   * `f(?a, ?a) = f(int, ?b)`: the first arguments bind `?a := int`, which rewrites the
   * second pair to `int = ?b`, so the match is `?a := int, ?b := int`.
   */
  lemma FirstArgumentsFirst()
    ensures var i32 := App("int", []);
            Unify(App("f", [FreeVar("a"), FreeVar("a")]), App("f", [i32, FreeVar("b")]))
              == Some(map["a" := i32, "b" := i32])
  {
    var i32 := App("int", []);
    var l := App("f", [FreeVar("a"), FreeVar("a")]);
    var r := App("f", [i32, FreeVar("b")]);
    var z := U.Zip(l.args, r.args);
    assert z == [(FreeVar("a"), i32), (FreeVar("a"), FreeVar("b"))];
    ReversedFacts(z);
    assert ArgPairs(l, r) == [(FreeVar("a"), FreeVar("b")), (FreeVar("a"), i32)];
    FirstPair();
    SecondPair();
  }

  /** The pair of first arguments binds `?a := int` and rewrites the other pair. */
  lemma FirstPair()
    ensures var i32 := App("int", []);
            Settled(map[]) && Fresh(map[], [(FreeVar("a"), FreeVar("b")), (FreeVar("a"), i32)])
            && Settled(map["a" := i32]) && Fresh(map["a" := i32], [(i32, FreeVar("b"))])
            && UnifyPairs([(FreeVar("a"), FreeVar("b")), (FreeVar("a"), i32)], map[])
               == UnifyPairs([(i32, FreeVar("b"))], map["a" := i32])
  {
    var i32 := App("int", []);
    var stack := [(FreeVar("a"), FreeVar("b")), (FreeVar("a"), i32)];
    var first := map["a" := i32];
    assert Unify(FreeVar("a"), i32) == Some(first);
    SubstituteShape(FreeVar("a"), first);
    SubstituteShape(FreeVar("b"), first);
    assert stack[..1] == [(FreeVar("a"), FreeVar("b"))];
    assert U.SubstPairs(stack[..1], first) == [(i32, FreeVar("b"))];
    assert TermMatches.Merged(map[], first) == first;
    BindFacts("a", i32);
    assert U.StackVars([(i32, FreeVar("b"))]) == {"b"};
  }

  /** The rewritten pair `int = ?b` binds `?b := int`; merging keeps `?a := int`. */
  lemma SecondPair()
    ensures var i32 := App("int", []);
            Settled(map["a" := i32]) && Fresh(map["a" := i32], [(i32, FreeVar("b"))])
            && UnifyPairs([(i32, FreeVar("b"))], map["a" := i32]) == Some(map["a" := i32, "b" := i32])
  {
    var i32 := App("int", []);
    var first := map["a" := i32];
    var second := map["b" := i32];
    BindFacts("a", i32);
    assert U.StackVars([(i32, FreeVar("b"))]) == {"b"};
    LegacyTerms.OccursIffFreeVar(i32, "b");
    assert Unify(i32, FreeVar("b")) == Some(second);
    SubstituteUnmapped(i32, second);
    assert TermMatches.Merged(first, second) == map["a" := i32, "b" := i32];
    assert [(i32, FreeVar("b"))][..0] == [];
  }
}

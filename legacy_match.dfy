/**
 * The recursive unifier of the older engine (`Term_Match.cs` beside the older
 * `Solver.cs`).  A FreeVar on either side is bound to the other side after an occurs
 * check; two Apps of the same head and arity have their argument pairs unified one
 * after the other, first arguments first, each result rewriting the pairs still to do
 * and merged into the bindings so far; two BoundVars unify when their indices agree;
 * every other pairing fails.  Unifying a variable with itself yields the binding of the
 * variable to itself.
 *
 * `Unify` and `UnifyPairs` are the specification: the recursive call and the `while`
 * loop over the reversed argument pairs.  They terminate because every binding that
 * moves a variable removes it from the pairs still to do (`Settled`), so each popped
 * pair either removes a variable or shrinks what is left.
 */
module LegacyMatch {
  import opened Wrappers
  import opened Terms
  import opened Substitution
  import LegacyTerms
  import TermMatches
  import U = Unifier

  type Pairs = seq<(Term, Term)>

  // ---------------------------------------------------------------- the argument stack

  /** `args.Reverse()` */
  function Reversed(s: Pairs): (r: Pairs)
    ensures |r| == |s|
  {
    if s == [] then [] else Reversed(s[1..]) + [s[0]]
  }

  /** The reversal holds the same pairs back to front, so the same variables and the same size. */
  lemma {:induction false} ReversedFacts(s: Pairs)
    ensures forall i :: 0 <= i < |s| ==> Reversed(s)[i] == s[|s| - 1 - i]
    ensures U.StackVars(Reversed(s)) == U.StackVars(s) && U.StackSize(Reversed(s)) == U.StackSize(s)
    decreases |s|
  {
    if s != [] {
      ReversedFacts(s[1..]);
      U.StackConcat(Reversed(s[1..]), [s[0]]);
      assert [s[0]][1..] == [];
    }
  }

  /** `al.Args.Zip(ar.Args).ToList()`, reversed, so that the last pair is the pair of first arguments. */
  function ArgPairs(l: Term, r: Term): Pairs
    requires l.App? && r.App? && |l.args| == |r.args|
  {
    Reversed(U.Zip(l.args, r.args))
  }

  lemma ArgPairsMeasure(l: Term, r: Term)
    requires l.App? && r.App? && |l.args| == |r.args|
    ensures U.StackVars(ArgPairs(l, r)) == FreeVars(l) + FreeVars(r)
    ensures U.StackSize(ArgPairs(l, r)) < Size(l) + Size(r)
  {
    U.ZipMeasure(l.args, r.args);
    ReversedFacts(U.Zip(l.args, r.args));
  }

  /** Popping the last pair: its variables and size are part of the stack's. */
  lemma PopMeasure(s: Pairs)
    requires s != []
    ensures var n := |s| - 1;
            && FreeVars(s[n].0) + FreeVars(s[n].1) <= U.StackVars(s)
            && U.StackVars(s[..n]) <= U.StackVars(s)
            && Size(s[n].0) + Size(s[n].1) + U.StackSize(s[..n]) == U.StackSize(s)
            && |FreeVars(s[n].0) + FreeVars(s[n].1)| <= |U.StackVars(s)|
  {
    var n := |s| - 1;
    assert s == s[..n] + [s[n]];
    U.StackConcat(s[..n], [s[n]]);
    assert [s[n]][1..] == [];
    U.SubsetCard(FreeVars(s[n].0) + FreeVars(s[n].1), U.StackVars(s));
  }

  // ---------------------------------------------------------------- bindings

  /** `m` binds `x` to something other than `?x` itself. */
  predicate Moves(m: Bindings, x: string) {
    x in m && m[x] != FreeVar(x)
  }

  /** No variable that a binding moves occurs in any bound value. */
  ghost predicate Settled(m: Bindings) {
    forall x, y :: Moves(m, x) && y in m ==> x !in FreeVars(m[y])
  }

  /** The free variables of the bound values. */
  ghost function ValueVars(m: Bindings): set<string> {
    set x, y | x in m && y in FreeVars(m[x]) :: y
  }

  /** Every variable `m` mentions, as a key or in a value. */
  ghost function Scope(m: Bindings): set<string> {
    m.Keys + ValueVars(m)
  }

  ghost predicate Within(m: Bindings, vs: set<string>) {
    Scope(m) <= vs
  }

  /** No variable the bindings move is still in the pairs to do. */
  ghost predicate Fresh(m: Bindings, s: Pairs) {
    forall x :: Moves(m, x) ==> x !in U.StackVars(s)
  }

  // ---------------------------------------------------------------- the specification

  /** `InternalTryMatch(left, right, _)`: the bindings, or `None` where it returns `null` or throws. */
  function Unify(l: Term, r: Term): (res: Option<Bindings>)
    ensures res.Some? ==> Settled(res.value) && Within(res.value, FreeVars(l) + FreeVars(r))
    decreases |FreeVars(l) + FreeVars(r)|, Size(l) + Size(r), 0
  {
    if l.FreeVar? then
      if r.FreeVar? && r.name == l.name then Some(map[l.name := r])
      else if LegacyTerms.Any(r, KFreeVar, IsVar(l.name)) then None
      else
        LegacyTerms.OccursIffFreeVar(r, l.name);
        BindFacts(l.name, r);
        Some(map[l.name := r])
    else if r.FreeVar? then
      if LegacyTerms.Any(l, KFreeVar, IsVar(r.name)) then None
      else
        LegacyTerms.OccursIffFreeVar(l, r.name);
        BindFacts(r.name, l);
        Some(map[r.name := l])
    else if l.App? && r.App? then
      if l.head != r.head || |l.args| != |r.args| then None
      else
        ArgPairsMeasure(l, r);
        assert Scope(map[]) == {};
        UnifyPairs(ArgPairs(l, r), map[])
    else if l.BoundVar? && r.BoundVar? then
      if l.index != r.index then None else Some(map[])
    else None
  }

  /**
   * The `while (args.Count != 0)` loop: pop the last pair, unify it, rewrite the pairs
   * left with the result and `Merge` it into the bindings so far.
   */
  function UnifyPairs(stack: Pairs, result: Bindings): (res: Option<Bindings>)
    requires Settled(result) && Fresh(result, stack)
    ensures res.Some? ==> Settled(res.value) && Within(res.value, U.StackVars(stack) + Scope(result))
    decreases |U.StackVars(stack)|, U.StackSize(stack), 1
  {
    if stack == [] then Some(result)
    else
      var n := |stack| - 1;
      PopMeasure(stack);
      match Unify(stack[n].0, stack[n].1)
      case None => None
      case Some(u) =>
        PopStep(stack, result, u);
        UnifyPairs(U.SubstPairs(stack[..n], u), TermMatches.Merged(result, u))
  }

  // ---------------------------------------------------------------- why it terminates

  lemma BindFacts(x: string, t: Term)
    requires x !in FreeVars(t)
    ensures Settled(map[x := t]) && Scope(map[x := t]) == {x} + FreeVars(t)
  {
    var m := map[x := t];
    assert ValueVars(m) == FreeVars(t) by {
      forall y | y in FreeVars(t) ensures y in ValueVars(m) {
        assert x in m && y in FreeVars(m[x]);
      }
    }
  }

  /** Substituting leaves the variables `u` does not bind, and brings in those of its values. */
  lemma SubstVars(t: Term, u: Bindings)
    ensures FreeVars(Substitute(t, u)) <= (FreeVars(t) - u.Keys) + ValueVars(u)
  {
    forall y | y in FreeVars(Substitute(t, u)) ensures y in (FreeVars(t) - u.Keys) + ValueVars(u) {
      FreeVarsOfSubstitute(t, u, y);
      if IntroducedBy(y, FreeVars(t), u) {
        var x :| x in FreeVars(t) && x in u && y in FreeVars(u[x]);
      }
    }
  }

  lemma {:induction false} SubstPairsVars(s: Pairs, u: Bindings)
    ensures U.StackVars(U.SubstPairs(s, u)) <= (U.StackVars(s) - u.Keys) + ValueVars(u)
    decreases |s|
  {
    if s != [] {
      var r := U.SubstPairs(s, u);
      SubstPairsVars(s[1..], u);
      assert r[1..] == U.SubstPairs(s[1..], u);
      SubstVars(s[0].0, u);
      SubstVars(s[0].1, u);
    }
  }

  /** Bindings that move none of a term's variables leave it as it is. */
  lemma {:induction false} SubstituteTrivial(t: Term, m: Bindings)
    requires forall x :: x in FreeVars(t) ==> !Moves(m, x)
    ensures Substitute(t, m) == t
    decreases t
  {
    SubstituteShape(t, m);
    match t
    case FreeVar(x) =>
      assert x in FreeVars(t);
    case App(h, args) =>
      forall i | 0 <= i < |args| ensures Substitute(args[i], m) == args[i] {
        SubstituteTrivial(args[i], m);
      }
      assert SubstituteArgs(args, m) == args;
    case Alias(a, b, _) =>
      SubstituteTrivial(a, m);
      SubstituteTrivial(b, m);
    case IrAlias(a, b, _) =>
      SubstituteTrivial(a, m);
      SubstituteTrivial(b, m);
    case _ =>
  }

  lemma SubstPairsTrivial(s: Pairs, u: Bindings)
    requires forall x :: !Moves(u, x)
    ensures U.SubstPairs(s, u) == s
  {
    forall i | 0 <= i < |s| ensures U.SubstPairs(s, u)[i] == s[i] {
      SubstituteTrivial(s[i].0, u);
      SubstituteTrivial(s[i].1, u);
    }
  }

  /** A variable the merged bindings move is moved by `u`, or by `result` and untouched by `u`. */
  lemma MergedMoves(result: Bindings, u: Bindings, x: string)
    requires Moves(TermMatches.Merged(result, u), x)
    ensures Moves(u, x) || (x !in u && Moves(result, x))
  {
    if x !in u && result[x] == FreeVar(x) {
      SubstituteShape(FreeVar(x), u);
    }
  }

  lemma MergeSettled(result: Bindings, u: Bindings, vs: set<string>)
    requires Settled(result) && Settled(u) && Within(u, vs)
    requires forall x :: Moves(result, x) ==> x !in vs
    ensures Settled(TermMatches.Merged(result, u))
  {
    var m := TermMatches.Merged(result, u);
    forall x, y | Moves(m, x) && y in m ensures x !in FreeVars(m[y]) {
      MergedMoves(result, u, x);
      if y !in u {
        FreeVarsOfSubstitute(result[y], u, x);
      }
    }
  }

  lemma MergeFresh(stack: Pairs, result: Bindings, u: Bindings)
    requires stack != []
    requires Settled(u) && Fresh(result, stack)
    requires Within(u, FreeVars(stack[|stack| - 1].0) + FreeVars(stack[|stack| - 1].1))
    ensures Fresh(TermMatches.Merged(result, u), U.SubstPairs(stack[..|stack| - 1], u))
  {
    var n := |stack| - 1;
    var m := TermMatches.Merged(result, u);
    PopMeasure(stack);
    SubstPairsVars(stack[..n], u);
    forall x | Moves(m, x) ensures x !in U.StackVars(U.SubstPairs(stack[..n], u)) {
      MergedMoves(result, u, x);
    }
  }

  lemma MergeScope(result: Bindings, u: Bindings)
    ensures Scope(TermMatches.Merged(result, u)) <= Scope(result) + Scope(u)
  {
    var m := TermMatches.Merged(result, u);
    forall y | y in ValueVars(m) ensures y in Scope(result) + Scope(u) {
      var x :| x in m && y in FreeVars(m[x]);
      if x !in u {
        SubstVars(result[x], u);
        if y in FreeVars(result[x]) {
          assert y in ValueVars(result);
        }
      }
    }
  }

  /**
   * One turn of the loop keeps the bindings settled and fresh, keeps every variable
   * within the stack's and the bindings' so far, and removes a variable or shrinks the stack.
   */
  lemma PopStep(stack: Pairs, result: Bindings, u: Bindings)
    requires stack != []
    requires Settled(result) && Fresh(result, stack)
    requires Settled(u) && Within(u, FreeVars(stack[|stack| - 1].0) + FreeVars(stack[|stack| - 1].1))
    ensures var n := |stack| - 1;
            var next := U.SubstPairs(stack[..n], u);
            var merged := TermMatches.Merged(result, u);
            && Settled(merged) && Fresh(merged, next)
            && U.StackVars(next) + Scope(merged) <= U.StackVars(stack) + Scope(result)
            && |U.StackVars(next)| <= |U.StackVars(stack)|
            && (|U.StackVars(next)| < |U.StackVars(stack)| || U.StackSize(next) < U.StackSize(stack))
  {
    var n := |stack| - 1;
    var vs := FreeVars(stack[n].0) + FreeVars(stack[n].1);
    var next := U.SubstPairs(stack[..n], u);
    PopMeasure(stack);
    MergeSettled(result, u, vs);
    MergeFresh(stack, result, u);
    MergeScope(result, u);
    SubstPairsVars(stack[..n], u);
    assert U.StackVars(next) <= U.StackVars(stack);
    U.SubsetCard(U.StackVars(next), U.StackVars(stack));
    if x :| Moves(u, x) {
      assert x in vs;
      assert x !in U.StackVars(next);
    } else {
      SubstPairsTrivial(stack[..n], u);
    }
  }

  // ---------------------------------------------------------------- the code

  /** What `InternalTryMatch` hands back: a match, `null`, or a `MatchException`. */
  datatype MatchOutcome = Matched(m: Bindings) | NoMatch | Thrown

  function Outcome(l: Term, r: Term, throwException: bool): MatchOutcome {
    match Unify(l, r)
    case Some(m) => Matched(m)
    case None => if throwException then Thrown else NoMatch
  }

  /** `Merge(result, substitutions)`: every binding so far rewritten, then the new bindings written over. */
  method MergeInto(result: Bindings, u: Bindings) returns (r: Bindings)
    ensures r == TermMatches.Merged(result, u)
  {
    r := RewriteValues(result, u);
    r := WriteOver(r, u);
    assert r == TermMatches.Merged(result, u);
  }

  /** `foreach (var k in result.Keys.ToList()) result[k] = result[k].Substitute(substitutions);` */
  method RewriteValues(result: Bindings, u: Bindings) returns (r: Bindings)
    ensures r.Keys == result.Keys
    ensures forall k :: k in r ==> r[k] == Substitute(result[k], u)
  {
    r := result;
    var todo := result.Keys;
    while todo != {}
      invariant todo <= result.Keys && r.Keys == result.Keys
      invariant forall k :: k in r ==> r[k] == if k in todo then result[k] else Substitute(result[k], u)
      decreases todo
    {
      var k :| k in todo;
      r := r[k := Substitute(r[k], u)];
      todo := todo - {k};
    }
  }

  /** `foreach (var item in substitutions.Substitutions) result[item.Key] = item.Value;` */
  method WriteOver(result: Bindings, u: Bindings) returns (r: Bindings)
    ensures r == result + u
  {
    r := result;
    var todo := u.Keys;
    while todo != {}
      invariant todo <= u.Keys && r.Keys == result.Keys + (u.Keys - todo)
      invariant forall k :: k in r ==> r[k] == if k in u && k !in todo then u[k] else result[k]
      decreases todo
    {
      var k :| k in todo;
      r := r[k := u[k]];
      todo := todo - {k};
    }
  }

  /** The `for` loop that rewrites both sides of every pair still to do. */
  method RewritePairs(args: Pairs, u: Bindings) returns (r: Pairs)
    ensures r == U.SubstPairs(args, u)
  {
    r := args;
    for i := 0 to |r|
      invariant |r| == |args|
      invariant forall j :: 0 <= j < i ==> r[j] == (Substitute(args[j].0, u), Substitute(args[j].1, u))
      invariant forall j :: i <= j < |r| ==> r[j] == args[j]
    {
      r := r[i := (Substitute(r[i].0, u), Substitute(r[i].1, u))];
    }
  }

  /** `InternalTryMatch(left, right, throwException)` */
  method InternalTryMatch(l: Term, r: Term, throwException: bool) returns (o: MatchOutcome)
    ensures o == Outcome(l, r, throwException)
    decreases |FreeVars(l) + FreeVars(r)|, Size(l) + Size(r)
  {
    var result: Bindings := map[];
    if l.FreeVar? {
      if r.FreeVar? && r.name == l.name {
        return Matched(map[l.name := r]);
      }
      if LegacyTerms.Any(r, KFreeVar, IsVar(l.name)) {
        if throwException {
          return Thrown;
        }
        return NoMatch;
      }
      // The loop that rewrites the bindings so far runs over an empty dictionary here.
      result := result[l.name := r];
    } else if r.FreeVar? {
      // The check for a FreeVar on the left cannot succeed in this branch.
      if LegacyTerms.Any(l, KFreeVar, IsVar(r.name)) {
        if throwException {
          return Thrown;
        }
        return NoMatch;
      }
      result := result[r.name := l];
    } else if l.App? && r.App? {
      if l.head != r.head || |l.args| != |r.args| {
        if throwException {
          return Thrown;
        }
        return NoMatch;
      }
      ArgPairsMeasure(l, r);
      assert Scope(map[]) == {};
      var args := ArgPairs(l, r);
      while args != []
        invariant Settled(result) && Fresh(result, args)
        invariant UnifyPairs(args, result) == Unify(l, r)
        invariant |U.StackVars(args)| <= |FreeVars(l) + FreeVars(r)|
        invariant |U.StackVars(args)| < |FreeVars(l) + FreeVars(r)| || U.StackSize(args) < Size(l) + Size(r)
        decreases |U.StackVars(args)|, U.StackSize(args)
      {
        ghost var before := args;
        var n := |args| - 1;
        var last := args[n];
        args := args[..n];
        PopMeasure(before);
        var unified := InternalTryMatch(last.0, last.1, throwException);
        if !unified.Matched? {
          return unified;
        }
        PopStep(before, result, unified.m);
        args := RewritePairs(args, unified.m);
        result := MergeInto(result, unified.m);
      }
    } else if l.BoundVar? && r.BoundVar? {
      if l.index != r.index {
        if throwException {
          return Thrown;
        }
        return NoMatch;
      }
    } else {
      if throwException {
        return Thrown;
      }
      return NoMatch;
    }
    return Matched(result);
  }

  /** `TryMatch(left, right)`: the bindings, or `null`. */
  method TryMatch(l: Term, r: Term) returns (m: Option<Bindings>)
    ensures m == Unify(l, r)
  {
    var o := InternalTryMatch(l, r, false);
    m := if o.Matched? then Some(o.m) else None;
  }

  /** `Match(left, right)`: the bindings, or a `MatchException` where `TryMatch` gives `null`. */
  method Match(l: Term, r: Term) returns (o: MatchOutcome)
    ensures !o.NoMatch?
    ensures o.Matched? <==> Unify(l, r).Some?
    ensures o.Matched? ==> o.m == Unify(l, r).value
  {
    o := InternalTryMatch(l, r, true);
  }
}

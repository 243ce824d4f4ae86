/**
 * The worklist unifier of `Term.InternalTryMatch`, as a step function on its state: the
 * bindings found so far, the postponed alias equations (late goals) and the stack of
 * pairs still to unify, popped from its end.
 *
 * The right-hand FreeVar branch rewrites the pending pairs with the variable itself, so
 * that the variable it has just bound stays in the worklist.  `Variant` selects between
 * that code as written and the evidently intended rewrite with the other side.
 */
module Unifier {
  import opened Wrappers
  import opened Terms
  import opened TermFacts
  import opened Substitution
  import EqGoals
  import opened TermMatches

  type EqGoal = EqGoals.EqGoal

  datatype Variant = AsWritten | Corrected

  datatype Worklist = Worklist(result: Bindings, lateGoals: seq<EqGoal>, stack: seq<(Term, Term)>)

  /** The state before the loop: `stack = [(l, r)]`. */
  function Init(l: Term, r: Term): Worklist {
    Worklist(map[], [], [(l, r)])
  }

  // ------------------------------------------------------------- measures

  function StackVars(s: seq<(Term, Term)>): set<string> {
    if s == [] then {} else FreeVars(s[0].0) + FreeVars(s[0].1) + StackVars(s[1..])
  }

  function StackSize(s: seq<(Term, Term)>): nat {
    if s == [] then 0 else Size(s[0].0) + Size(s[0].1) + StackSize(s[1..])
  }

  lemma {:induction false} StackConcat(a: seq<(Term, Term)>, b: seq<(Term, Term)>)
    ensures StackVars(a + b) == StackVars(a) + StackVars(b)
    ensures StackSize(a + b) == StackSize(a) + StackSize(b)
    decreases |a|
  {
    if a == [] {
      assert a + b == b;
    } else {
      StackConcat(a[1..], b);
      assert (a + b)[1..] == a[1..] + b;
    }
  }

  /** `Args.Zip(...)`: the argument pairs of two Apps of equal arity. */
  function Zip(xs: seq<Term>, ys: seq<Term>): (r: seq<(Term, Term)>)
    requires |xs| == |ys|
    ensures |r| == |xs| && forall i :: 0 <= i < |xs| ==> r[i] == (xs[i], ys[i])
  {
    seq(|xs|, i requires 0 <= i < |xs| => (xs[i], ys[i]))
  }

  lemma {:induction false} ZipMeasure(xs: seq<Term>, ys: seq<Term>)
    requires |xs| == |ys|
    ensures StackVars(Zip(xs, ys)) == FreeVarsOfArgs(xs) + FreeVarsOfArgs(ys)
    ensures StackSize(Zip(xs, ys)) == SizeOfArgs(xs) + SizeOfArgs(ys)
    decreases |xs|
  {
    if xs != [] {
      ZipMeasure(xs[1..], ys[1..]);
      assert Zip(xs, ys)[1..] == Zip(xs[1..], ys[1..]);
      assert forall i :: 1 <= i < |xs| ==> xs[i] == xs[1..][i - 1];
      assert forall i :: 1 <= i < |ys| ==> ys[i] == ys[1..][i - 1];
    }
  }

  /** A step that removes a variable from the worklist, or keeps its variables and shrinks it. */
  ghost predicate Progress(before: seq<(Term, Term)>, after: seq<(Term, Term)>) {
    StackVars(after) <= StackVars(before) &&
    (StackVars(after) < StackVars(before) || StackSize(after) < StackSize(before))
  }

  lemma SubsetCard(a: set<string>, b: set<string>)
    requires a <= b
    ensures |a| <= |b|
    ensures a < b ==> |a| < |b|
    decreases b
  {
    if a < b {
      assert b - a != {};
      var y :| y in b - a;
      SubsetCard(a, b - {y});
    } else if a != {} {
      var x :| x in a;
      SubsetCard(a - {x}, b - {x});
    }
  }

  // ---------------------------------------------------------------- the step

  /** Every pending pair, both sides substituted with `m`. */
  function SubstPairs(s: seq<(Term, Term)>, m: Bindings): (r: seq<(Term, Term)>)
    ensures |r| == |s| && forall i :: 0 <= i < |s| ==> r[i] == (Substitute(s[i].0, m), Substitute(s[i].1, m))
  {
    seq(|s|, i requires 0 <= i < |s| => (Substitute(s[i].0, m), Substitute(s[i].1, m)))
  }

  /** Every binding's value with `?x` replaced by `value`; the keys stay. */
  function SubstituteValues(m: Bindings, x: string, value: Term): (r: Bindings)
    ensures r.Keys == m.Keys
  {
    map k | k in m :: Substitute(m[k], map[x := value])
  }

  /**
   * Binding `?x := value`: `x` is replaced by `value` in every earlier binding, by
   * `inStack` in every pending pair, and then `result[x] = value`.
   */
  function Bind(w: Worklist, rest: seq<(Term, Term)>, x: string, value: Term, inStack: Term): Worklist {
    Worklist(
      SubstituteValues(w.result, x, value)[x := value],
      w.lateGoals,
      SubstPairs(rest, map[x := inStack]))
  }

  /**
   * One turn of the `while (stack.Count != 0)` loop: the last pair is popped and
   * dispatched; `None` is a failed match.
   */
  function Step(w: Worklist, v: Variant): (r: Option<Worklist>)
    requires w.stack != []
  {
    var n := |w.stack| - 1;
    var left := w.stack[n].0;
    var right := w.stack[n].1;
    var rest := w.stack[..n];
    if left.FreeVar? then
      if right.FreeVar? && right.name == left.name then Some(Worklist(w.result, w.lateGoals, rest))
      else if Any(right, KFreeVar, IsVar(left.name)) then None
      else Some(Bind(w, rest, left.name, right, right))
    else if right.FreeVar? then
      if Any(left, KFreeVar, IsVar(right.name)) then None
      else Some(Bind(w, rest, right.name, left, if v == AsWritten then right else left))
    else if left.Alias? || right.Alias? then
      Some(Worklist(w.result, w.lateGoals + [EqGoals.EqGoal(left, right)], rest))
    else if left.App? && right.App? then
      if left.head != right.head || |left.args| != |right.args| then None
      else Some(Worklist(w.result, w.lateGoals, rest + Zip(left.args, right.args)))
    else if left.IrAlias? && right.IrAlias? then
      if left.name != right.name then None
      else Some(Worklist(w.result, w.lateGoals,
                         rest + [(left.target, right.target), (left.traitTerm, right.traitTerm)]))
    else if left.BoundVar? && right.BoundVar? then
      if left.index != right.index then None
      else Some(Worklist(w.result, w.lateGoals, rest))
    else None
  }

  // ----------------------------------------------------------- termination

  lemma SubstituteOneVars(t: Term, x: string, v: Term)
    ensures FreeVars(Substitute(t, map[x := v])) <= (FreeVars(t) - {x}) + FreeVars(v)
  {
    forall y | y in FreeVars(Substitute(t, map[x := v]))
      ensures y in (FreeVars(t) - {x}) + FreeVars(v)
    {
      FreeVarsOfSubstitute(t, map[x := v], y);
    }
  }

  lemma {:induction false} SubstPairsVars(s: seq<(Term, Term)>, x: string, v: Term)
    ensures StackVars(SubstPairs(s, map[x := v])) <= (StackVars(s) - {x}) + FreeVars(v)
    decreases |s|
  {
    if s != [] {
      var r := SubstPairs(s, map[x := v]);
      SubstPairsVars(s[1..], x, v);
      assert r[1..] == SubstPairs(s[1..], map[x := v]);
      SubstituteOneVars(s[0].0, x, v);
      SubstituteOneVars(s[0].1, x, v);
      assert StackVars(r) == FreeVars(r[0].0) + FreeVars(r[0].1) + StackVars(r[1..]);
    }
  }

  /** Replacing a variable by itself changes nothing. */
  lemma SubstPairsSelf(s: seq<(Term, Term)>, x: string)
    ensures SubstPairs(s, map[x := FreeVar(x)]) == s
  {
    forall t: Term ensures Substitute(t, map[x := FreeVar(x)]) == t {
      SubstituteSelf(t, x);
    }
  }

  lemma {:induction false} SubstituteSelf(t: Term, x: string)
    ensures Substitute(t, map[x := FreeVar(x)]) == t
    decreases t
  {
    SubstituteShape(t, map[x := FreeVar(x)]);
    match t
    case App(h, args) =>
      forall i | 0 <= i < |args| ensures Substitute(args[i], map[x := FreeVar(x)]) == args[i] {
        SubstituteSelf(args[i], x);
      }
    case Alias(a, b, _) =>
      SubstituteSelf(a, x);
      SubstituteSelf(b, x);
    case IrAlias(a, b, _) =>
      SubstituteSelf(a, x);
      SubstituteSelf(b, x);
    case _ =>
  }

  /** Binding a variable that does not occur in its value removes it from the worklist. */
  lemma BindProgress(w: Worklist, x: string, value: Term, other: Term)
    requires w.stack != []
    requires w.stack[|w.stack| - 1] == (FreeVar(x), value) || w.stack[|w.stack| - 1] == (value, FreeVar(x))
    requires x !in FreeVars(value)
    ensures Progress(w.stack, Bind(w, w.stack[..|w.stack| - 1], x, value, value).stack)
  {
    var n := |w.stack| - 1;
    var rest := w.stack[..n];
    assert w.stack == rest + [w.stack[n]];
    StackConcat(rest, [w.stack[n]]);
    assert StackVars([w.stack[n]]) == {x} + FreeVars(value);
    SubstPairsVars(rest, x, value);
  }

  /** Every step removes a variable from the worklist or keeps its variables and shrinks it. */
  lemma StepProgress(w: Worklist, v: Variant)
    requires w.stack != []
    ensures Step(w, v).Some? ==> Progress(w.stack, Step(w, v).value.stack)
  {
    var n := |w.stack| - 1;
    var left := w.stack[n].0;
    var right := w.stack[n].1;
    var rest := w.stack[..n];
    assert w.stack == rest + [w.stack[n]];
    StackConcat(rest, [w.stack[n]]);
    assert StackVars([w.stack[n]]) == FreeVars(left) + FreeVars(right);
    assert StackSize([w.stack[n]]) == Size(left) + Size(right);
    if Step(w, v).Some? {
      if left.FreeVar? {
        if !(right.FreeVar? && right.name == left.name) {
          OccursIffFreeVar(right, left.name);
          BindProgress(w, left.name, right, right);
        }
      } else if right.FreeVar? {
        OccursIffFreeVar(left, right.name);
        if v == AsWritten {
          SubstPairsSelf(rest, right.name);
        } else {
          BindProgress(w, right.name, left, left);
        }
      } else if left.Alias? || right.Alias? {
      } else if left.App? && right.App? {
        ZipMeasure(left.args, right.args);
        StackConcat(rest, Zip(left.args, right.args));
      } else if left.IrAlias? && right.IrAlias? {
        var pairs := [(left.target, right.target), (left.traitTerm, right.traitTerm)];
        StackConcat(rest, pairs);
        assert pairs[1..][1..] == [];
      }
    }
  }

  /** The loop run to completion: the bindings and unsubstituted late goals, or `None`. */
  function Solve(w: Worklist, v: Variant): Option<(Bindings, seq<EqGoal>)>
    decreases |StackVars(w.stack)|, StackSize(w.stack)
  {
    if w.stack == [] then Some((w.result, w.lateGoals))
    else
      match Step(w, v)
      case None => None
      case Some(w') =>
        StepProgress(w, v);
        SubsetCard(StackVars(w'.stack), StackVars(w.stack));
        Solve(w', v)
  }

  /** `InternalTryMatch`: the loop, then every late goal substituted with the bindings. */
  function MatchResult(l: Term, r: Term, v: Variant): Option<TermMatch> {
    match Solve(Init(l, r), v)
    case None => None
    case Some((res, late)) => Some(TermMatch(res, EqGoals.SubstituteAll(late, res)))
  }

  /** What `InternalTryMatch` hands back: a match, `null`, or a `MatchException`. */
  datatype MatchOutcome = Matched(m: TermMatch) | NoMatch | Thrown

  function Outcome(l: Term, r: Term, throwException: bool, v: Variant): MatchOutcome {
    match MatchResult(l, r, v)
    case Some(m) => Matched(m)
    case None => if throwException then Thrown else NoMatch
  }
}

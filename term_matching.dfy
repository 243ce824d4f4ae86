/**
 * `Term.TryMatch`, `Term.Match` and `Term.InternalTryMatch`: the worklist loop over a
 * result dictionary, a late-goal list and a stack of pairs, proved to compute what the
 * step function of `Unifier` describes.
 */
module TermMatching {
  import opened Wrappers
  import opened Terms
  import opened Substitution
  import EqGoals
  import opened TermMatches
  import opened Unifier

  /** The `foreach (var k in result.Keys)` loop: `?x` replaced by `value` in every binding. */
  method RewriteValues(result: Bindings, x: string, value: Term) returns (r: Bindings)
    ensures r == SubstituteValues(result, x, value)
  {
    r := result;
    var todo := result.Keys;
    ghost var done: set<string> := {};
    while todo != {}
      invariant done !! todo && done + todo == result.Keys
      invariant r.Keys == result.Keys
      invariant forall k :: k in r ==> r[k] == if k in done then Substitute(result[k], map[x := value]) else result[k]
      decreases todo
    {
      var k :| k in todo;
      r := r[k := Substitute(r[k], map[x := value])];
      todo := todo - {k};
      done := done + {k};
    }
  }

  /** The `for` loop over the stack: both sides of every pending pair rewritten in place. */
  method RewritePairs(stack: seq<(Term, Term)>, x: string, value: Term) returns (s: seq<(Term, Term)>)
    ensures s == SubstPairs(stack, map[x := value])
  {
    s := stack;
    for i := 0 to |s|
      invariant |s| == |stack|
      invariant forall j :: 0 <= j < i ==> s[j] == (Substitute(stack[j].0, map[x := value]), Substitute(stack[j].1, map[x := value]))
      invariant forall j :: i <= j < |s| ==> s[j] == stack[j]
    {
      var newLeft := Substitute(s[i].0, map[x := value]);
      var newRight := Substitute(s[i].1, map[x := value]);
      s := s[i := (newLeft, newRight)];
    }
  }

  /** `stack.Add((al.Args[i], ar.Args[i]))` for every argument position, in order. */
  method PushArgs(stack: seq<(Term, Term)>, xs: seq<Term>, ys: seq<Term>) returns (s: seq<(Term, Term)>)
    requires |xs| == |ys|
    ensures s == stack + Zip(xs, ys)
  {
    s := stack;
    for i := 0 to |xs|
      invariant |s| == |stack| + i
      invariant s[..|stack|] == stack
      invariant forall j :: 0 <= j < i ==> s[|stack| + j] == (xs[j], ys[j])
    {
      s := s + [(xs[i], ys[i])];
    }
  }

  /** The closing loop: every late goal substituted with the final bindings. */
  method SubstituteLate(goals: seq<EqGoals.EqGoal>, m: Bindings) returns (gs: seq<EqGoals.EqGoal>)
    ensures gs == EqGoals.SubstituteAll(goals, m)
  {
    gs := goals;
    for i := 0 to |gs|
      invariant |gs| == |goals|
      invariant forall j :: 0 <= j < i ==> gs[j] == EqGoals.Substitute(goals[j], m)
      invariant forall j :: i <= j < |gs| ==> gs[j] == goals[j]
    {
      gs := gs[i := EqGoals.Substitute(gs[i], m)];
    }
  }

  method InternalTryMatch(l: Term, r: Term, throwException: bool, v: Variant) returns (o: MatchOutcome)
    ensures o == Outcome(l, r, throwException, v)
  {
    var result: Bindings := map[];
    var lateGoals: seq<EqGoals.EqGoal> := [];
    var stack := [(l, r)];
    while stack != []
      invariant Solve(Worklist(result, lateGoals, stack), v) == Solve(Init(l, r), v)
      decreases |StackVars(stack)|, StackSize(stack)
    {
      ghost var w := Worklist(result, lateGoals, stack);
      var current := stack[|stack| - 1];
      stack := stack[..|stack| - 1];
      var left := current.0;
      var right := current.1;
      if left.FreeVar? {
        if !(right.FreeVar? && right.name == left.name) {
          if Any(right, KFreeVar, IsVar(left.name)) {
            o := if throwException then Thrown else NoMatch;
            return;
          }
          result := RewriteValues(result, left.name, right);
          stack := RewritePairs(stack, left.name, right);
          result := result[left.name := right];
        }
      } else if right.FreeVar? {
        if Any(left, KFreeVar, IsVar(right.name)) {
          o := if throwException then Thrown else NoMatch;
          return;
        }
        result := RewriteValues(result, right.name, left);
        stack := RewritePairs(stack, right.name, if v == AsWritten then right else left);
        result := result[right.name := left];
      } else if left.Alias? || right.Alias? {
        lateGoals := lateGoals + [EqGoals.EqGoal(left, right)];
      } else if left.App? && right.App? {
        if left.head != right.head || |left.args| != |right.args| {
          o := if throwException then Thrown else NoMatch;
          return;
        }
        stack := PushArgs(stack, left.args, right.args);
      } else if left.IrAlias? && right.IrAlias? {
        if left.name != right.name {
          o := if throwException then Thrown else NoMatch;
          return;
        }
        stack := stack + [(left.target, right.target)];
        stack := stack + [(left.traitTerm, right.traitTerm)];
        assert stack == w.stack[..|w.stack| - 1] + [(left.target, right.target), (left.traitTerm, right.traitTerm)];
      } else if left.BoundVar? && right.BoundVar? {
        if left.index != right.index {
          o := if throwException then Thrown else NoMatch;
          return;
        }
      } else {
        o := if throwException then Thrown else NoMatch;
        return;
      }
      assert Step(w, v) == Some(Worklist(result, lateGoals, stack));
      StepProgress(w, v);
      SubsetCard(StackVars(stack), StackVars(w.stack));
    }
    var late := SubstituteLate(lateGoals, result);
    o := Matched(TermMatch(result, late));
  }

  /** `TryMatch`: the match, or `None` where the source returns `null`. */
  method TryMatch(l: Term, r: Term, v: Variant) returns (m: Option<TermMatch>)
    ensures m == MatchResult(l, r, v)
  {
    var o := InternalTryMatch(l, r, false, v);
    m := if o.Matched? then Some(o.m) else None;
  }

  /** `Match`: the match, or a `MatchException`; it never yields `null`. */
  method Match(l: Term, r: Term, v: Variant) returns (o: MatchOutcome)
    ensures !o.NoMatch?
    ensures o.Matched? <==> MatchResult(l, r, v).Some?
    ensures o.Matched? ==> MatchResult(l, r, v) == Some(o.m)
  {
    o := InternalTryMatch(l, r, true, v);
  }
}

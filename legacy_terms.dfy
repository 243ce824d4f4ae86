/**
 * The walks of the older engine's `App` record (the `App.cs` that sits beside the older
 * `Solver.cs`).  `Any` and `Replace` recurse into every argument as the newer `App`
 * does; `Descendants` yields only the immediate arguments of the kind asked for and
 * never goes deeper.  The older snapshot's other term records are not part of this
 * model: a node that is not an App is walked as in `Terms`.
 */
module LegacyTerms {
  import opened Wrappers
  import opened Terms
  import opened TermFacts

  // ---------------------------------------------------------------- Any

  /** `Any<T>(pred)`: the App itself when it is a `T` satisfying `pred`, then each argument in turn. */
  function Any(t: Term, k: Kind, pred: Term -> bool): bool
    decreases t, 1
  {
    if t.App? then (t.IsKind(k) && pred(t)) || AnyOfArgs(t.args, k, pred)
    else Terms.Any(t, k, pred)
  }

  /** The `foreach (var arg in Args)` loop of `Any`, returning at the first argument that holds. */
  function AnyOfArgs(args: seq<Term>, k: Kind, pred: Term -> bool): (r: bool)
    decreases args
    ensures r <==> exists i :: 0 <= i < |args| && Any(args[i], k, pred)
  {
    if args == [] then false
    else if Any(args[0], k, pred) then true
    else
      var rest := AnyOfArgs(args[1..], k, pred);
      assert forall i :: 1 <= i < |args| ==> args[i] == args[1..][i - 1];
      rest
  }

  function AnyOfKind(t: Term, k: Kind): bool {
    Any(t, k, AlwaysTrue())
  }

  /** The older `Any` answers as the newer one on every term. */
  lemma {:induction false} AnyAgrees(t: Term, k: Kind, pred: Term -> bool)
    decreases t
    ensures Any(t, k, pred) == Terms.Any(t, k, pred)
  {
    if t.App? {
      forall i | 0 <= i < |t.args| {
        AnyAgrees(t.args[i], k, pred);
      }
    }
  }

  /** `Any<FreeVar>()` holds iff the term has a free variable. */
  lemma AnyFreeVarIffFreeVars(t: Term)
    ensures AnyOfKind(t, KFreeVar) <==> FreeVars(t) != {}
  {
    AnyAgrees(t, KFreeVar, AlwaysTrue());
    TermFacts.AnyFreeVarIffFreeVars(t);
  }

  /** The occurs check `Any<FreeVar>(v => v == x)` holds iff `x` is a free variable of the term. */
  lemma OccursIffFreeVar(t: Term, x: string)
    ensures Any(t, KFreeVar, IsVar(x)) <==> x in FreeVars(t)
  {
    AnyAgrees(t, KFreeVar, IsVar(x));
    TermFacts.OccursIffFreeVar(t, x);
  }

  // ---------------------------------------------------------------- Replace

  /**
   * `Replace<T>(replacement)`: the replacement of the App when it is a `T` and the
   * replacement is not null, otherwise a new App with the same head and every argument
   * replaced.
   */
  function Replace(t: Term, k: Kind, repl: Term -> Option<Term>): Term
    decreases t, 1
  {
    if t.App? then
      if t.IsKind(k) && repl(t).Some? then repl(t).value
      else App(t.head, ReplaceArgs(t.args, k, repl))
    else Terms.Replace(t, k, repl)
  }

  /** `Args.Select(a => a.Replace(replacement))` */
  function ReplaceArgs(args: seq<Term>, k: Kind, repl: Term -> Option<Term>): (r: seq<Term>)
    decreases args
    ensures |r| == |args|
    ensures forall i :: 0 <= i < |args| ==> r[i] == Replace(args[i], k, repl)
  {
    if args == [] then []
    else
      var rest := ReplaceArgs(args[1..], k, repl);
      assert forall i :: 1 <= i < |args| ==> args[i] == args[1..][i - 1];
      [Replace(args[0], k, repl)] + rest
  }

  /** The older `Replace` builds the same term as the newer one, so `Substitute` means the same in both snapshots. */
  lemma {:induction false} ReplaceAgrees(t: Term, k: Kind, repl: Term -> Option<Term>)
    decreases t
    ensures Replace(t, k, repl) == Terms.Replace(t, k, repl)
  {
    if t.App? {
      forall i | 0 <= i < |t.args| {
        ReplaceAgrees(t.args[i], k, repl);
      }
      assert ReplaceArgs(t.args, k, repl) == Terms.ReplaceArgs(t.args, k, repl);
    }
  }

  /** Unless the App itself is replaced, the result is an App with the same head and arity. */
  lemma ReplaceKeepsShape(t: Term, k: Kind, repl: Term -> Option<Term>)
    requires t.App? && !(t.IsKind(k) && repl(t).Some?)
    ensures Replace(t, k, repl).App?
    ensures Replace(t, k, repl).head == t.head && |Replace(t, k, repl).args| == |t.args|
    ensures forall i :: 0 <= i < |t.args| ==> Replace(t, k, repl).args[i] == Replace(t.args[i], k, repl)
  {
  }

  /** A replacement that is always null yields an equal term. */
  lemma ReplaceNeverIsIdentity(t: Term, k: Kind)
    ensures Replace(t, k, NeverReplace()) == t
  {
    ReplaceAgrees(t, k, NeverReplace());
    TermFacts.ReplaceNeverIsIdentity(t, k);
  }

  // ---------------------------------------------------------------- Descendants

  /** `Descendants<T>()` of an App: the arguments that are a `T`, in argument order, and nothing below them. */
  function Descendants(t: Term, k: Kind): (r: seq<Term>)
    ensures forall d :: d in r ==> d.IsKind(k)
  {
    if t.App? then ArgsOfKind(t.args, k) else Terms.Descendants(t, k)
  }

  /** `foreach (var arg in Args) if (arg is T term) yield return term;` */
  function ArgsOfKind(args: seq<Term>, k: Kind): (r: seq<Term>)
    ensures |r| <= |args|
    ensures forall d :: d in r <==> d in args && d.IsKind(k)
  {
    if args == [] then []
    else
      var rest := ArgsOfKind(args[1..], k);
      assert forall d :: d in args <==> d == args[0] || d in args[1..];
      (if args[0].IsKind(k) then [args[0]] else []) + rest
  }

  /** Everything the older `Descendants` yields, the newer one yields as well. */
  lemma DescendantsShallow(t: Term, k: Kind, d: Term)
    requires d in Descendants(t, k)
    ensures d in Terms.Descendants(t, k)
  {
    if t.App? {
      var i :| 0 <= i < |t.args| && t.args[i] == d;
      assert d in DescendantsAndSelf(t.args[i], k);
    }
  }

  /** `List<List<?a>>`: the nested variable is a descendant for the newer `App` but not for the older one. */
  lemma NestedVarNotDescendant()
    ensures var t := App("List", [App("List", [FreeVar("a")])]);
            Descendants(t, KFreeVar) == [] && Terms.Descendants(t, KFreeVar) == [FreeVar("a")]
  {
    var inner := App("List", [FreeVar("a")]);
    var t := App("List", [inner]);
    assert !inner.IsKind(KFreeVar);
    assert ArgsOfKind([inner], KFreeVar) == [];
    assert Terms.DescendantsOfArgs([FreeVar("a")], KFreeVar) == [FreeVar("a")];
    assert Terms.Descendants(inner, KFreeVar) == [FreeVar("a")];
    assert Terms.DescendantsOfArgs([inner], KFreeVar) == [FreeVar("a")];
  }

  // ---------------------------------------------------------------- Equals

  /**
   * The older `App.Equals` has the same body as the newer one: equal heads and
   * `other.Args.SequenceEqual(Args)`, with `other`'s argument as the receiver.
   */
  lemma AppEquals(h: string, xs: seq<Term>, g: string, ys: seq<Term>)
    ensures TermEquals(App(h, xs), App(g, ys)) <==>
            h == g && |xs| == |ys| && forall i :: 0 <= i < |xs| ==> TermEquals(ys[i], xs[i])
  {
    TermFacts.AppEquals(h, xs, g, ys);
  }
}

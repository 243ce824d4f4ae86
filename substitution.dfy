/**
 * The `Substitute` overloads of `Term`: a map from FreeVars (keyed by name) or from
 * BoundVars (keyed by index) applied through `Replace`, with `GetValueOrDefault` as the
 * replacement, so that unmapped variables are kept.
 */
module Substitution {
  import opened Wrappers
  import opened Terms
  import opened TermFacts

  /** `IReadOnlyDictionary<FreeVar, Term>`; FreeVars are equal when their names are. */
  type Bindings = map<string, Term>

  function FreeRepl(m: Bindings): Term -> Option<Term> {
    (v: Term) => if v.FreeVar? && v.name in m then Some(m[v.name]) else None
  }

  /** `t.Substitute(IReadOnlyDictionary<FreeVar, Term>)` */
  function Substitute(t: Term, m: Bindings): Term {
    Replace(t, KFreeVar, FreeRepl(m))
  }

  function SubstituteArgs(args: seq<Term>, m: Bindings): (r: seq<Term>)
    ensures |r| == |args|
    ensures forall i :: 0 <= i < |args| ==> r[i] == Substitute(args[i], m)
  {
    ReplaceArgs(args, KFreeVar, FreeRepl(m))
  }

  function BoundRepl(m: map<int, Term>): Term -> Option<Term> {
    (v: Term) => if v.BoundVar? && v.index in m then Some(m[v.index]) else None
  }

  /** `t.Substitute(IReadOnlyDictionary<BoundVar, Term>)` */
  function SubstituteBound(t: Term, m: map<int, Term>): Term {
    Replace(t, KBoundVar, BoundRepl(m))
  }

  /** Only FreeVar nodes are replaced, each by its binding when it has one; every other node is rebuilt as it was. */
  lemma SubstituteShape(t: Term, m: Bindings)
    ensures t.FreeVar? ==> Substitute(t, m) == if t.name in m then m[t.name] else t
    ensures t.App? ==> Substitute(t, m) == App(t.head, SubstituteArgs(t.args, m))
    ensures t.Alias? ==> Substitute(t, m) == Alias(Substitute(t.target, m), Substitute(t.traitTerm, m), t.name)
    ensures t.IrAlias? ==> Substitute(t, m) == IrAlias(Substitute(t.target, m), Substitute(t.traitTerm, m), t.name)
    ensures t.BoundVar? || t.Const? || t.ConstBoundVar? ==> Substitute(t, m) == t
  {
  }

  /** Only BoundVar nodes are replaced by `SubstituteBound`. */
  lemma SubstituteBoundShape(t: Term, m: map<int, Term>)
    ensures t.BoundVar? ==> SubstituteBound(t, m) == if t.index in m then m[t.index] else t
    ensures t.App? ==> SubstituteBound(t, m) == App(t.head, ReplaceArgs(t.args, KBoundVar, BoundRepl(m)))
    ensures t.Alias? ==> SubstituteBound(t, m) == Alias(SubstituteBound(t.target, m), SubstituteBound(t.traitTerm, m), t.name)
    ensures t.IrAlias? ==> SubstituteBound(t, m) == IrAlias(SubstituteBound(t.target, m), SubstituteBound(t.traitTerm, m), t.name)
    ensures t.FreeVar? || t.Const? || t.ConstBoundVar? ==> SubstituteBound(t, m) == t
  {
  }

  /** A map none of whose keys is a free variable of `t` (the empty map in particular) leaves `t` unchanged. */
  lemma SubstituteUnmapped(t: Term, m: Bindings)
    requires FreeVars(t) !! m.Keys
    ensures Substitute(t, m) == t
  {
    forall d | d in DescendantsAndSelf(t, KFreeVar)
      ensures FreeRepl(m)(d).None?
    {
      FreeVarsViaDescendants(t, d.name);
    }
    ReplaceNoHit(t, KFreeVar, FreeRepl(m));
  }

  /** The BoundVar counterpart of `SubstituteUnmapped`. */
  lemma {:induction false} SubstituteBoundUnmapped(t: Term, m: map<int, Term>)
    decreases t
    requires BoundVars(t) !! m.Keys
    ensures SubstituteBound(t, m) == t
  {
    match t
    case App(h, args) =>
      forall i | 0 <= i < |args|
        ensures SubstituteBound(args[i], m) == args[i]
      {
        SubstituteBoundUnmapped(args[i], m);
      }
      assert ReplaceArgs(args, KBoundVar, BoundRepl(m)) == args;
    case Alias(a, b, _) =>
      SubstituteBoundUnmapped(a, m);
      SubstituteBoundUnmapped(b, m);
    case IrAlias(a, b, _) =>
      SubstituteBoundUnmapped(a, m);
      SubstituteBoundUnmapped(b, m);
    case _ =>
  }

  /** The free variables a substitution can bring in: those of the values bound to variables of `s`. */
  predicate IntroducedBy(y: string, s: set<string>, m: Bindings) {
    exists x :: x in s && x in m && y in FreeVars(m[x])
  }

  /**
   * After substitution, the free variables are the unmapped ones of `t` together with
   * those of the values of the mapped ones.
   */
  lemma {:induction false} FreeVarsOfSubstitute(t: Term, m: Bindings, y: string)
    decreases t
    ensures y in FreeVars(Substitute(t, m)) <==> (y in FreeVars(t) && y !in m) || IntroducedBy(y, FreeVars(t), m)
  {
    match t
    case FreeVar(x) =>
    case App(h, args) =>
      var r := SubstituteArgs(args, m);
      forall i | 0 <= i < |args| {
        FreeVarsOfSubstitute(args[i], m, y);
      }
      if IntroducedBy(y, FreeVars(t), m) {
        var x :| x in FreeVars(t) && x in m && y in FreeVars(m[x]);
        var i :| 0 <= i < |args| && x in FreeVars(args[i]);
        assert IntroducedBy(y, FreeVars(args[i]), m);
      }
      if y in FreeVars(Substitute(t, m)) {
        var i :| 0 <= i < |r| && y in FreeVars(r[i]);
        if IntroducedBy(y, FreeVars(args[i]), m) {
          var x :| x in FreeVars(args[i]) && x in m && y in FreeVars(m[x]);
          assert x in FreeVars(t);
        }
      }
    case Alias(a, b, _) =>
      FreeVarsOfSubstitute(a, m, y);
      FreeVarsOfSubstitute(b, m, y);
    case IrAlias(a, b, _) =>
      FreeVarsOfSubstitute(a, m, y);
      FreeVarsOfSubstitute(b, m, y);
    case _ =>
  }

  /** A map whose values mention none of its keys. */
  predicate Idempotent(m: Bindings) {
    forall x :: x in m ==> FreeVars(m[x]) !! m.Keys
  }

  /** With an idempotent map no key survives substitution, so substituting twice is substituting once. */
  lemma SubstituteIdempotent(t: Term, m: Bindings)
    requires Idempotent(m)
    ensures FreeVars(Substitute(t, m)) !! m.Keys
    ensures Substitute(Substitute(t, m), m) == Substitute(t, m)
  {
    forall y | y in FreeVars(Substitute(t, m))
      ensures y !in m
    {
      FreeVarsOfSubstitute(t, m, y);
    }
    SubstituteUnmapped(Substitute(t, m), m);
  }

  /** The map that substituting with `m1` and then with `m2` amounts to. */
  function Compose(m1: Bindings, m2: Bindings): Bindings {
    map x | x in m1.Keys + m2.Keys :: if x in m1 then Substitute(m1[x], m2) else m2[x]
  }

  /** Substituting with `m1` then with `m2` is substituting once with `Compose(m1, m2)`. */
  lemma {:induction false} SubstituteCompose(t: Term, m1: Bindings, m2: Bindings)
    decreases t
    ensures Substitute(Substitute(t, m1), m2) == Substitute(t, Compose(m1, m2))
  {
    match t
    case App(h, args) =>
      var once := SubstituteArgs(args, m1);
      forall i | 0 <= i < |args|
        ensures Substitute(once[i], m2) == Substitute(args[i], Compose(m1, m2))
      {
        SubstituteCompose(args[i], m1, m2);
      }
      assert SubstituteArgs(once, m2) == SubstituteArgs(args, Compose(m1, m2));
    case Alias(a, b, _) =>
      SubstituteCompose(a, m1, m2);
      SubstituteCompose(b, m1, m2);
    case IrAlias(a, b, _) =>
      SubstituteCompose(a, m1, m2);
      SubstituteCompose(b, m1, m2);
    case _ =>
  }

  /** A substitution never makes a term smaller. */
  lemma {:induction false} SubstituteSize(t: Term, m: Bindings)
    decreases t
    ensures Size(Substitute(t, m)) >= Size(t)
  {
    match t
    case App(h, args) =>
      forall i | 0 <= i < |args| {
        SubstituteSize(args[i], m);
      }
      SizeOfArgsPointwise(args, SubstituteArgs(args, m));
    case Alias(a, b, _) =>
      SubstituteSize(a, m);
      SubstituteSize(b, m);
    case IrAlias(a, b, _) =>
      SubstituteSize(a, m);
      SubstituteSize(b, m);
    case _ =>
  }

  lemma {:induction false} SizeOfArgsPointwise(xs: seq<Term>, ys: seq<Term>)
    decreases xs
    requires |xs| == |ys|
    requires forall i :: 0 <= i < |xs| ==> Size(ys[i]) >= Size(xs[i])
    ensures SizeOfArgs(ys) >= SizeOfArgs(xs)
  {
    if xs != [] {
      SizeOfArgsPointwise(xs[1..], ys[1..]);
    }
  }
}

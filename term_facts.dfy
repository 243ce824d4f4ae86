/** Properties of the generic walks of `Terms`. */
module TermFacts {
  import opened Wrappers
  import opened Consts
  import opened Terms

  /** `Any` holds exactly when some node of `DescendantsAndSelf` satisfies the predicate. */
  lemma {:induction false} AnyViaDescendants(t: Term, k: Kind, pred: Term -> bool)
    decreases t
    ensures Any(t, k, pred) <==> exists d :: d in DescendantsAndSelf(t, k) && pred(d)
  {
    match t
    case App(_, args) =>
      forall i | 0 <= i < |args| {
        AnyViaDescendants(args[i], k, pred);
      }
    case Alias(a, b, _) =>
      AnyViaDescendants(a, k, pred);
      AnyViaDescendants(b, k, pred);
    case IrAlias(a, b, _) =>
      AnyViaDescendants(a, k, pred);
      AnyViaDescendants(b, k, pred);
    case _ =>
  }

  /** `Any<T>()` is `Any<T>(p => true)`: it holds iff there is a node of kind `k`. */
  lemma AnyOfKindIffSomeNode(t: Term, k: Kind)
    ensures AnyOfKind(t, k) <==> |DescendantsAndSelf(t, k)| > 0
  {
    AnyViaDescendants(t, k, AlwaysTrue());
    if |DescendantsAndSelf(t, k)| > 0 {
      assert DescendantsAndSelf(t, k)[0] in DescendantsAndSelf(t, k);
    }
  }

  /** FreeVar, BoundVar, Const and ConstBoundVar: no descendants, and `Any`/`Replace` look only at the node. */
  lemma LeafWalks(t: Term, k: Kind, pred: Term -> bool, repl: Term -> Option<Term>)
    requires t.IsLeaf()
    ensures Descendants(t, k) == []
    ensures DescendantsAndSelf(t, k) == if t.IsKind(k) then [t] else []
    ensures Any(t, k, pred) <==> t.IsKind(k) && pred(t)
    ensures Replace(t, k, repl) == if t.IsKind(k) && repl(t).Some? then repl(t).value else t
  {
  }

  /** A replacement that is null on every node of kind `k` leaves the term unchanged. */
  lemma {:induction false} ReplaceNoHit(t: Term, k: Kind, repl: Term -> Option<Term>)
    decreases t
    requires forall d :: d in DescendantsAndSelf(t, k) ==> repl(d).None?
    ensures Replace(t, k, repl) == t
  {
    assert forall d :: d in Descendants(t, k) ==> d in DescendantsAndSelf(t, k);
    match t
    case App(h, args) =>
      forall i | 0 <= i < |args|
        ensures Replace(args[i], k, repl) == args[i]
      {
        forall d | d in DescendantsAndSelf(args[i], k) ensures d in DescendantsOfArgs(args, k) { }
        ReplaceNoHit(args[i], k, repl);
      }
      assert ReplaceArgs(args, k, repl) == args;
    case Alias(a, b, _) =>
      assert Descendants(t, k) == DescendantsAndSelf(a, k) + DescendantsAndSelf(b, k);
      ReplaceNoHit(a, k, repl);
      ReplaceNoHit(b, k, repl);
    case IrAlias(a, b, _) =>
      assert Descendants(t, k) == DescendantsAndSelf(a, k) + DescendantsAndSelf(b, k);
      ReplaceNoHit(a, k, repl);
      ReplaceNoHit(b, k, repl);
    case _ =>
  }

  /** `Replace` with an always-null replacement yields an equal term. */
  lemma ReplaceNeverIsIdentity(t: Term, k: Kind)
    ensures Replace(t, k, NeverReplace()) == t
  {
    ReplaceNoHit(t, k, NeverReplace());
  }

  /** The FreeVars of a term are exactly the FreeVar nodes `DescendantsAndSelf<FreeVar>` yields. */
  lemma {:induction false} FreeVarsViaDescendants(t: Term, x: string)
    decreases t
    ensures x in FreeVars(t) <==> FreeVar(x) in DescendantsAndSelf(t, KFreeVar)
    ensures !t.FreeVar? ==> (x in FreeVars(t) <==> FreeVar(x) in Descendants(t, KFreeVar))
  {
    match t
    case App(_, args) =>
      forall i | 0 <= i < |args| {
        FreeVarsViaDescendants(args[i], x);
      }
    case Alias(a, b, _) =>
      FreeVarsViaDescendants(a, x);
      FreeVarsViaDescendants(b, x);
    case IrAlias(a, b, _) =>
      FreeVarsViaDescendants(a, x);
      FreeVarsViaDescendants(b, x);
    case _ =>
  }

  /** The occurs check `t.Any<FreeVar>(v => v == x)` holds iff `x` is a free variable of `t`. */
  lemma OccursIffFreeVar(t: Term, x: string)
    ensures Any(t, KFreeVar, IsVar(x)) <==> x in FreeVars(t)
  {
    AnyViaDescendants(t, KFreeVar, IsVar(x));
    FreeVarsViaDescendants(t, x);
    if Any(t, KFreeVar, IsVar(x)) {
      var d :| d in DescendantsAndSelf(t, KFreeVar) && IsVar(x)(d);
      assert d == FreeVar(x);
    }
  }

  /** `t.Any<FreeVar>()` holds iff `t` has a free variable. */
  lemma AnyFreeVarIffFreeVars(t: Term)
    ensures AnyOfKind(t, KFreeVar) <==> FreeVars(t) != {}
  {
    AnyOfKindIffSomeNode(t, KFreeVar);
    var ds := DescendantsAndSelf(t, KFreeVar);
    if |ds| > 0 {
      assert ds[0] in ds && ds[0].FreeVar?;
      FreeVarsViaDescendants(t, ds[0].name);
    }
    if FreeVars(t) != {} {
      var x :| x in FreeVars(t);
      FreeVarsViaDescendants(t, x);
    }
  }

  /** Term equality is reflexive, whichever side is the receiver. */
  lemma {:induction false} TermEqualsReflexive(t: Term)
    decreases t
    ensures TermEquals(t, t)
    ensures EqualsAt(t, t, true)
  {
    match t
    case App(_, args) =>
      forall i | 0 <= i < |args| {
        TermEqualsReflexive(args[i]);
      }
    case Alias(a, b, _) =>
      TermEqualsReflexive(a);
      TermEqualsReflexive(b);
    case IrAlias(a, b, _) =>
      TermEqualsReflexive(a);
      TermEqualsReflexive(b);
    case Const(c) =>
      EqualsReflexive(c);
    case _ =>
  }

  /** On terms without constants, record equality is structural equality. */
  lemma {:induction false} TermEqualsWithoutConsts(a: Term, b: Term)
    decreases a
    requires NoConsts(a)
    ensures TermEquals(a, b) <==> a == b
    ensures EqualsAt(a, b, true) <==> a == b
  {
    match a
    case App(h, args) =>
      if b.App? {
        forall i | 0 <= i < |args| && i < |b.args| {
          TermEqualsWithoutConsts(args[i], b.args[i]);
        }
        if TermEquals(a, b) || EqualsAt(a, b, true) {
          assert args == b.args;
        }
      }
      if a == b {
        TermEqualsReflexive(a);
      }
    case Alias(x, y, _) =>
      if b.Alias? {
        TermEqualsWithoutConsts(x, b.target);
        TermEqualsWithoutConsts(y, b.traitTerm);
      }
    case IrAlias(x, y, _) =>
      if b.IrAlias? {
        TermEqualsWithoutConsts(x, b.target);
        TermEqualsWithoutConsts(y, b.traitTerm);
      }
    case _ =>
  }

  /** `EqualsAt` walks one side but names the receiver by `flip`: walking the other side agrees. */
  lemma {:induction false} EqualsAtSwap(x: Term, y: Term, flip: bool)
    decreases x
    ensures EqualsAt(x, y, flip) == EqualsAt(y, x, !flip)
  {
    match x
    case App(h, args) =>
      if y.App? {
        forall i | 0 <= i < |args| && i < |y.args| {
          EqualsAtSwap(args[i], y.args[i], !flip);
        }
      }
    case Alias(p, q, _) =>
      if y.Alias? {
        EqualsAtSwap(p, y.target, flip);
        EqualsAtSwap(q, y.traitTerm, flip);
      }
    case IrAlias(p, q, _) =>
      if y.IrAlias? {
        EqualsAtSwap(p, y.target, flip);
        EqualsAtSwap(q, y.traitTerm, flip);
      }
    case _ =>
  }

  /**
   * `App.Equals`: equal heads, equal arities, and each argument of `other` equal to the
   * argument at the same position, with `other`'s argument as the receiver.
   */
  lemma AppEquals(h: string, xs: seq<Term>, g: string, ys: seq<Term>)
    ensures TermEquals(App(h, xs), App(g, ys)) <==>
            h == g && |xs| == |ys| && forall i :: 0 <= i < |xs| ==> TermEquals(ys[i], xs[i])
  {
    forall i | 0 <= i < |xs| && i < |ys| {
      EqualsAtSwap(xs[i], ys[i], true);
    }
  }

  /**
   * The receiver matters: `f<1u8>.Equals(f<true>)` asks `true.Equals(1u8)`, which needs the
   * `bool` tag, while `f<true>.Equals(f<1u8>)` asks `1u8.Equals(true)`, which reads raw data.
   */
  lemma ArgumentReceiverIsOther()
    ensures !TermEquals(App("f", [Const(FromU8(1))]), App("f", [Const(FromBool(true))]))
    ensures TermEquals(App("f", [Const(FromBool(true))]), App("f", [Const(FromU8(1))]))
  {
    AppEquals("f", [Const(FromU8(1))], "f", [Const(FromBool(true))]);
    AppEquals("f", [Const(FromBool(true))], "f", [Const(FromU8(1))]);
    EqualsNotSymmetric();
  }

  /** With constants, record equality identifies different widths: `Const(5u8) == Const(5u64)`. */
  lemma TermEqualsIdentifiesWidths()
    ensures TermEquals(Const(FromU8(5)), Const(FromU64(5)))
    ensures Const(FromU8(5)) != Const(FromU64(5))
  {
  }
}

/**
 * The term algebra of the solver and its three generic walks: `Any`, `Replace` and
 * `Descendants`.  The C# type argument `T` of the walks (`Any<FreeVar>`,
 * `Replace<BoundVar>`, ...) is the `Kind` parameter here: only nodes of that kind are
 * handed to the predicate or to the replacement.
 */
module Terms {
  import opened Wrappers
  import opened Consts

  datatype Kind = KApp | KFreeVar | KBoundVar | KAlias | KIrAlias | KConst | KConstBoundVar

  datatype Term =
    | App(head: string, args: seq<Term>)
    | FreeVar(name: string)
    | BoundVar(index: int)
      // a reducible projection `Target::<Trait>::Name`
    | Alias(target: Term, traitTerm: Term, name: string)
      // an irreducible projection
    | IrAlias(target: Term, traitTerm: Term, name: string)
    | Const(value: ConstName)
    | ConstBoundVar(index: int)
  {
    /** `this is T` */
    predicate IsKind(k: Kind) {
      match this
      case App(_, _) => k == KApp
      case FreeVar(_) => k == KFreeVar
      case BoundVar(_) => k == KBoundVar
      case Alias(_, _, _) => k == KAlias
      case IrAlias(_, _, _) => k == KIrAlias
      case Const(_) => k == KConst
      case ConstBoundVar(_) => k == KConstBoundVar
    }

    /** FreeVar, BoundVar, Const and ConstBoundVar have no sub-terms. */
    predicate IsLeaf() {
      !App? && !Alias? && !IrAlias?
    }
  }

  /** Number of nodes. */
  function Size(t: Term): (n: nat)
    decreases t, 1
  {
    match t
    case App(_, args) => 1 + SizeOfArgs(args)
    case Alias(a, b, _) => 1 + Size(a) + Size(b)
    case IrAlias(a, b, _) => 1 + Size(a) + Size(b)
    case _ => 1
  }

  function SizeOfArgs(args: seq<Term>): (n: nat)
    decreases args
  {
    if args == [] then 0 else Size(args[0]) + SizeOfArgs(args[1..])
  }

  // ---------------------------------------------------------------- Any

  /** `t.Any<T>(pred)`: the node itself when it is a `T`, then its children, short-circuiting. */
  function Any(t: Term, k: Kind, pred: Term -> bool): bool
    decreases t, 1
  {
    (t.IsKind(k) && pred(t)) ||
    match t
    case App(_, args) => AnyOfArgs(args, k, pred)
    case Alias(a, b, _) => Any(a, k, pred) || Any(b, k, pred)
    case IrAlias(a, b, _) => Any(a, k, pred) || Any(b, k, pred)
    case _ => false
  }

  /** The `foreach (var arg in Args)` loop of `App.Any`. */
  function AnyOfArgs(args: seq<Term>, k: Kind, pred: Term -> bool): (r: bool)
    decreases args
    ensures r <==> exists i :: 0 <= i < |args| && Any(args[i], k, pred)
  {
    if args == [] then false
    else if Any(args[0], k, pred) then true
    else
      var rest := AnyOfArgs(args[1..], k, pred);
      assert forall i :: 1 <= i < |args| ==> args[i] == args[1..][i - 1];
      rest
  }

  function AlwaysTrue(): Term -> bool {
    (_: Term) => true
  }

  /** `t.Any<T>()`: is there a node of kind `k` at all. */
  function AnyOfKind(t: Term, k: Kind): bool {
    Any(t, k, AlwaysTrue())
  }

  // ---------------------------------------------------------------- Replace

  /**
   * `t.Replace<T>(replacement)`: a node of kind `k` for which the replacement is not
   * null is replaced as a whole; every other node is rebuilt from its replaced children.
   */
  function Replace(t: Term, k: Kind, repl: Term -> Option<Term>): Term
    decreases t, 1
  {
    if t.IsKind(k) && repl(t).Some? then repl(t).value
    else
      match t
      case App(h, args) => App(h, ReplaceArgs(args, k, repl))
      case Alias(a, b, n) => Alias(Replace(a, k, repl), Replace(b, k, repl), n)
      case IrAlias(a, b, n) => IrAlias(Replace(a, k, repl), Replace(b, k, repl), n)
      case _ => t
  }

  /** `Args.Select(a => a.Replace(replacement))`: same length, each argument replaced in place. */
  function ReplaceArgs(args: seq<Term>, k: Kind, repl: Term -> Option<Term>): (r: seq<Term>)
    decreases args
    ensures |r| == |args|
    ensures forall i :: 0 <= i < |args| ==> r[i] == Replace(args[i], k, repl)
  {
    if args == [] then []
    else
      var rest := ReplaceArgs(args[1..], k, repl);
      assert forall i :: 1 <= i < |args| ==> args[i] == args[1..][i - 1];
      [Replace(args[0], k, repl)] + rest
  }

  function NeverReplace(): Term -> Option<Term> {
    (_: Term) => None
  }

  // ---------------------------------------------------------------- Descendants

  /**
   * `t.Descendants<T>()`: the nodes of kind `k` strictly below `t`, in pre-order, each
   * child before the child's own descendants.
   */
  function Descendants(t: Term, k: Kind): (r: seq<Term>)
    decreases t, 1
    ensures forall d :: d in r ==> d.IsKind(k)
  {
    match t
    case App(_, args) => DescendantsOfArgs(args, k)
    case Alias(a, b, _) => DescendantsAndSelf(a, k) + DescendantsAndSelf(b, k)
    case IrAlias(a, b, _) => DescendantsAndSelf(a, k) + DescendantsAndSelf(b, k)
    case _ => []
  }

  /** `t.DescendantsAndSelf<T>()`: `t` first when it is of kind `k`, then `Descendants`. */
  function DescendantsAndSelf(t: Term, k: Kind): (r: seq<Term>)
    decreases t, 2
    ensures forall d :: d in r ==> d.IsKind(k)
  {
    (if t.IsKind(k) then [t] else []) + Descendants(t, k)
  }

  /** The loop of `App.Descendants`: each argument's `DescendantsAndSelf`, in argument order. */
  function DescendantsOfArgs(args: seq<Term>, k: Kind): (r: seq<Term>)
    decreases args
    ensures forall d :: d in r ==> d.IsKind(k)
    ensures forall d :: d in r <==> exists i :: 0 <= i < |args| && d in DescendantsAndSelf(args[i], k)
  {
    if args == [] then []
    else
      var rest := DescendantsOfArgs(args[1..], k);
      assert forall i :: 1 <= i < |args| ==> args[i] == args[1..][i - 1];
      DescendantsAndSelf(args[0], k) + rest
  }

  // ---------------------------------------------------------------- free variables

  /** Names of the FreeVar nodes of `t`, the root included. */
  function FreeVars(t: Term): set<string>
    decreases t, 1
  {
    match t
    case FreeVar(n) => {n}
    case App(_, args) => FreeVarsOfArgs(args)
    case Alias(a, b, _) => FreeVars(a) + FreeVars(b)
    case IrAlias(a, b, _) => FreeVars(a) + FreeVars(b)
    case _ => {}
  }

  function FreeVarsOfArgs(args: seq<Term>): (r: set<string>)
    decreases args
    ensures forall x :: x in r <==> exists i :: 0 <= i < |args| && x in FreeVars(args[i])
  {
    if args == [] then {}
    else
      var rest := FreeVarsOfArgs(args[1..]);
      assert forall i :: 1 <= i < |args| ==> args[i] == args[1..][i - 1];
      FreeVars(args[0]) + rest
  }

  /** Names of the BoundVar nodes of `t`. */
  function BoundVars(t: Term): set<int>
    decreases t, 1
  {
    match t
    case BoundVar(i) => {i}
    case App(_, args) => BoundVarsOfArgs(args)
    case Alias(a, b, _) => BoundVars(a) + BoundVars(b)
    case IrAlias(a, b, _) => BoundVars(a) + BoundVars(b)
    case _ => {}
  }

  function BoundVarsOfArgs(args: seq<Term>): (r: set<int>)
    decreases args
    ensures forall x :: x in r <==> exists i :: 0 <= i < |args| && x in BoundVars(args[i])
  {
    if args == [] then {}
    else
      var rest := BoundVarsOfArgs(args[1..]);
      assert forall i :: 1 <= i < |args| ==> args[i] == args[1..][i - 1];
      BoundVars(args[0]) + rest
  }

  /** The predicate `v => v == x` of the occurs check. */
  function IsVar(x: string): Term -> bool {
    (v: Term) => v.FreeVar? && v.name == x
  }

  // ---------------------------------------------------------------- equality

  /**
   * C# record equality of terms, `a.Equals(b)`: structural, except that constants compare
   * with `ConstName.Equals`, whose answer depends on which side is the receiver.
   */
  function TermEquals(a: Term, b: Term): bool {
    EqualsAt(a, b, false)
  }

  /**
   * The walk behind `TermEquals`: `x.Equals(y)` when `flip` is false and `y.Equals(x)` when
   * it is true.  `App.Equals` compares `other.Args.SequenceEqual(Args)`, so below an `App`
   * the other side's argument becomes the receiver and `flip` turns over; the generated
   * record equality of `Alias`, `IrAlias` and `Const` keeps the receiver's fields first.
   */
  function EqualsAt(x: Term, y: Term, flip: bool): bool
    decreases x, 1
  {
    match x
    case App(h, args) => y.App? && y.head == h && ArgsEqual(args, y.args, !flip)
    case Alias(p, q, n) => y.Alias? && EqualsAt(p, y.target, flip) && EqualsAt(q, y.traitTerm, flip) && n == y.name
    case IrAlias(p, q, n) => y.IrAlias? && EqualsAt(p, y.target, flip) && EqualsAt(q, y.traitTerm, flip) && n == y.name
    case Const(c) => y.Const? && (if flip then Consts.Equals(y.value, c) else Consts.Equals(c, y.value))
    case _ => x == y
  }

  /** `SequenceEqual`: same length and pairwise `EqualsAt` with the given receiver side. */
  function ArgsEqual(xs: seq<Term>, ys: seq<Term>, flip: bool): (r: bool)
    decreases xs
    ensures r <==> |xs| == |ys| && forall i :: 0 <= i < |xs| ==> EqualsAt(xs[i], ys[i], flip)
  {
    if xs == [] || ys == [] then xs == [] && ys == []
    else
      var rest := ArgsEqual(xs[1..], ys[1..], flip);
      assert forall i :: 1 <= i < |xs| && i < |ys| ==> xs[i] == xs[1..][i - 1] && ys[i] == ys[1..][i - 1];
      EqualsAt(xs[0], ys[0], flip) && rest
  }

  /** A term without Const nodes. */
  predicate NoConsts(t: Term)
    decreases t, 1
  {
    match t
    case Const(_) => false
    case App(_, args) => forall i :: 0 <= i < |args| ==> NoConsts(args[i])
    case Alias(a, b, _) => NoConsts(a) && NoConsts(b)
    case IrAlias(a, b, _) => NoConsts(a) && NoConsts(b)
    case _ => true
  }
}

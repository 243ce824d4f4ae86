/**
 * The clause records of the older engine (`Clause.cs` beside the older `Solver.cs`): an
 * impl clause with its type parameters (BoundVars, identified by index) and its
 * constraints, and the value equality it defines.  The older snapshot's other clause
 * records are not part of this model; the older solver only looks at impl clauses.
 */
module LegacyClauses {
  import opened Wrappers
  import opened Terms
  import opened TermFacts

  /** `ImplConstraint(Target, Trait)` */
  datatype ImplConstraint = ImplConstraint(target: Term, traitTerm: Term)

  /** `impl Name<TyParams> Target : Trait where Constraints` */
  datatype ImplClause = ImplClause(name: string, tyParams: seq<int>, target: Term, traitTerm: Term,
                                   constraints: seq<ImplConstraint>)

  /** A clause of the older engine: an impl clause, or a record of a kind the older solver skips. */
  datatype Clause = Impl(impl: ImplClause) | OtherClause

  /** The record equality of `ImplConstraint`: target and trait compared with term equality. */
  function ConstraintEquals(a: ImplConstraint, b: ImplConstraint): bool {
    TermEquals(a.target, b.target) && TermEquals(a.traitTerm, b.traitTerm)
  }

  /** The `TyParams` loop: equal lengths, then the first differing index returns false. */
  function ParamsEqual(xs: seq<int>, ys: seq<int>): (r: bool)
    ensures r <==> xs == ys
  {
    if |xs| != |ys| then false
    else ParamsFrom(xs, ys, 0)
  }

  function ParamsFrom(xs: seq<int>, ys: seq<int>, i: nat): (r: bool)
    requires |xs| == |ys| && i <= |xs|
    ensures r <==> xs[i..] == ys[i..]
    decreases |xs| - i
  {
    if i == |xs| then true
    else if xs[i] != ys[i] then false
    else
      assert xs[i..] == [xs[i]] + xs[i + 1..] && ys[i..] == [ys[i]] + ys[i + 1..];
      ParamsFrom(xs, ys, i + 1)
  }

  /** The `Constraints` loop: equal lengths, then each pair compared with `ConstraintEquals`. */
  function ConstraintsEqual(xs: seq<ImplConstraint>, ys: seq<ImplConstraint>): (r: bool)
    ensures r <==> |xs| == |ys| && forall i :: 0 <= i < |xs| ==> ConstraintEquals(xs[i], ys[i])
  {
    if |xs| != |ys| then false
    else ConstraintsFrom(xs, ys, 0)
  }

  function ConstraintsFrom(xs: seq<ImplConstraint>, ys: seq<ImplConstraint>, i: nat): (r: bool)
    requires |xs| == |ys| && i <= |xs|
    ensures r <==> forall j :: i <= j < |xs| ==> ConstraintEquals(xs[j], ys[j])
    decreases |xs| - i
  {
    if i == |xs| then true
    else if !ConstraintEquals(xs[i], ys[i]) then false
    else ConstraintsFrom(xs, ys, i + 1)
  }

  /**
   * `ImplClause.Equals(other)`: false for `null`, true for the same object, and otherwise
   * name, target, trait, type parameters and constraints compared in that order.
   * `sameObject` is `ReferenceEquals(this, other)`.
   */
  function Equals(c: ImplClause, other: Option<ImplClause>, sameObject: bool): (r: bool)
    requires sameObject ==> other == Some(c)
    ensures other.None? ==> !r
    ensures other.Some? ==>
              (r <==> && c.name == other.value.name
                      && TermEquals(c.target, other.value.target)
                      && TermEquals(c.traitTerm, other.value.traitTerm)
                      && c.tyParams == other.value.tyParams
                      && |c.constraints| == |other.value.constraints|
                      && forall i :: 0 <= i < |c.constraints| ==> ConstraintEquals(c.constraints[i], other.value.constraints[i]))
  {
    if other.None? then false
    else if sameObject then
      TermEqualsReflexive(c.target);
      TermEqualsReflexive(c.traitTerm);
      assert forall i :: 0 <= i < |c.constraints| ==> ConstraintEquals(c.constraints[i], c.constraints[i]) by {
        forall i | 0 <= i < |c.constraints| ensures ConstraintEquals(c.constraints[i], c.constraints[i]) {
          TermEqualsReflexive(c.constraints[i].target);
          TermEqualsReflexive(c.constraints[i].traitTerm);
        }
      }
      true
    else
      var o := other.value;
      if c.name != o.name then false
      else if !TermEquals(c.target, o.target) then false
      else if !TermEquals(c.traitTerm, o.traitTerm) then false
      else if !ParamsEqual(c.tyParams, o.tyParams) then false
      else ConstraintsEqual(c.constraints, o.constraints)
  }

  /** The `ReferenceEquals` shortcut gives the answer the field comparison would. */
  lemma SameObjectShortcut(c: ImplClause)
    ensures Equals(c, Some(c), true) == Equals(c, Some(c), false)
  {
  }

  /** A clause without constants anywhere. */
  predicate ClauseNoConsts(c: ImplClause) {
    && NoConsts(c.target) && NoConsts(c.traitTerm)
    && forall i :: 0 <= i < |c.constraints| ==> NoConsts(c.constraints[i].target) && NoConsts(c.constraints[i].traitTerm)
  }

  /** Without constants, two clauses are equal exactly when they are the same value. */
  lemma EqualsWithoutConsts(c: ImplClause, d: ImplClause)
    requires ClauseNoConsts(c)
    ensures Equals(c, Some(d), false) <==> c == d
  {
    TermEqualsWithoutConsts(c.target, d.target);
    TermEqualsWithoutConsts(c.traitTerm, d.traitTerm);
    forall i | 0 <= i < |c.constraints| && i < |d.constraints|
      ensures ConstraintEquals(c.constraints[i], d.constraints[i]) <==> c.constraints[i] == d.constraints[i]
    {
      TermEqualsWithoutConsts(c.constraints[i].target, d.constraints[i].target);
      TermEqualsWithoutConsts(c.constraints[i].traitTerm, d.constraints[i].traitTerm);
    }
    if Equals(c, Some(d), false) {
      assert forall i :: 0 <= i < |c.constraints| ==> c.constraints[i] == d.constraints[i];
      assert c.constraints == d.constraints;
    }
    if c == d {
      assert Equals(c, Some(d), true);
    }
  }
}

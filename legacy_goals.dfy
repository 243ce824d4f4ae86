/**
 * The goal records of the older engine (`Goal.cs` beside the older `Solver.cs`).  Its
 * `EqGoal` is the record `EqGoals.EqGoal`: two sides, both substituted.  Its `ImplGoal`
 * has no associated-type constraints.  The older `TermMatch` is not part of this model;
 * all the older files take from it is its `Substitutions` dictionary, so a match is a
 * `Bindings` map here.
 */
module LegacyGoals {
  import opened Terms
  import opened Substitution
  import LegacyTerms
  import TermFacts

  /** `ImplGoal(Target, Trait, ResolvesTo)` */
  datatype ImplGoal = ImplGoal(target: Term, traitTerm: Term, resolvesTo: string)

  /** `Substitute(match)`: target and trait substituted, the slot name kept. */
  function Substitute(g: ImplGoal, m: Bindings): (r: ImplGoal)
    ensures r.resolvesTo == g.resolvesTo
    ensures r.target == Substitution.Substitute(g.target, m) && r.traitTerm == Substitution.Substitute(g.traitTerm, m)
  {
    ImplGoal(Substitution.Substitute(g.target, m), Substitution.Substitute(g.traitTerm, m), g.resolvesTo)
  }

  function GoalVars(g: ImplGoal): set<string> {
    FreeVars(g.target) + FreeVars(g.traitTerm)
  }

  /** The empty match leaves a goal as it is. */
  lemma SubstituteEmpty(g: ImplGoal)
    ensures Substitute(g, map[]) == g
  {
    SubstituteUnmapped(g.target, map[]);
    SubstituteUnmapped(g.traitTerm, map[]);
  }

  /** With a map whose values mention none of its keys, substituting twice is substituting once, and no key is left. */
  lemma SubstituteIdempotent(g: ImplGoal, m: Bindings)
    requires Idempotent(m)
    ensures Substitute(Substitute(g, m), m) == Substitute(g, m)
    ensures GoalVars(Substitute(g, m)) !! m.Keys
  {
    Substitution.SubstituteIdempotent(g.target, m);
    Substitution.SubstituteIdempotent(g.traitTerm, m);
  }

  /** `IsNonGeneric()`: `Target.Any<FreeVar>()` and then `Trait.Any<FreeVar>()`, each returning false. */
  function IsNonGeneric(g: ImplGoal): (b: bool)
    ensures b <==> GoalVars(g) == {}
  {
    LegacyTerms.AnyFreeVarIffFreeVars(g.target);
    LegacyTerms.AnyFreeVarIffFreeVars(g.traitTerm);
    if LegacyTerms.AnyOfKind(g.target, KFreeVar) then false
    else if LegacyTerms.AnyOfKind(g.traitTerm, KFreeVar) then false
    else true
  }

  /** The names of the FreeVars an older `Descendants<FreeVar>()` yields. */
  function DescendantNames(t: Term): set<string> {
    set d | d in LegacyTerms.Descendants(t, KFreeVar) :: d.name
  }

  /** The free variables that are an immediate argument of an App. */
  function ArgVars(t: Term): set<string> {
    if t.App? then set i | 0 <= i < |t.args| && t.args[i].FreeVar? :: t.args[i].name else {}
  }

  /** On an App, the descendant FreeVars are its immediate FreeVar arguments. */
  lemma DescendantNamesOfApp(t: Term)
    ensures t.App? ==> DescendantNames(t) == ArgVars(t)
  {
    if t.App? {
      forall x | x in DescendantNames(t) ensures x in ArgVars(t) {
        var d :| d in LegacyTerms.Descendants(t, KFreeVar) && d.name == x;
        var i :| 0 <= i < |t.args| && t.args[i] == d;
      }
      forall x | x in ArgVars(t) ensures x in DescendantNames(t) {
        var i :| 0 <= i < |t.args| && t.args[i].FreeVar? && t.args[i].name == x;
        assert t.args[i] in LegacyTerms.Descendants(t, KFreeVar);
      }
    }
  }

  /**
   * `CountFreeVars()`: `Target.Descendants<FreeVar>().ToHashSet()`, united with the
   * trait's.  On Apps it counts the distinct variables that are an immediate argument.
   */
  function CountFreeVars(g: ImplGoal): (n: nat)
    ensures g.target.App? && g.traitTerm.App? ==> n == |ArgVars(g.target) + ArgVars(g.traitTerm)|
  {
    DescendantNamesOfApp(g.target);
    DescendantNamesOfApp(g.traitTerm);
    |DescendantNames(g.target) + DescendantNames(g.traitTerm)|
  }

  /** Every counted variable is a free variable of the goal, so a non-generic goal counts none. */
  lemma CountedAreFree(g: ImplGoal)
    ensures DescendantNames(g.target) + DescendantNames(g.traitTerm) <= GoalVars(g)
    ensures IsNonGeneric(g) ==> CountFreeVars(g) == 0
  {
    forall x | x in DescendantNames(g.target) + DescendantNames(g.traitTerm) ensures x in GoalVars(g) {
      var t := if x in DescendantNames(g.target) then g.target else g.traitTerm;
      var d :| d in LegacyTerms.Descendants(t, KFreeVar) && d.name == x;
      LegacyTerms.DescendantsShallow(t, KFreeVar, d);
      assert d == FreeVar(x);
      TermFacts.FreeVarsViaDescendants(t, x);
    }
    if IsNonGeneric(g) {
      assert DescendantNames(g.target) + DescendantNames(g.traitTerm) == {};
    }
  }

  /** `List<List<?a>>: Eq` is generic, yet counts no free variable: `?a` is not an immediate argument. */
  lemma NestedVarNotCounted()
    ensures var g := ImplGoal(App("List", [App("List", [FreeVar("a")])]), App("Eq", []), "g");
            !IsNonGeneric(g) && CountFreeVars(g) == 0
  {
    var inner := App("List", [FreeVar("a")]);
    var g := ImplGoal(App("List", [inner]), App("Eq", []), "g");
    assert "a" in FreeVars(FreeVar("a"));
    assert "a" in FreeVars(inner);
    assert "a" in FreeVars(g.target);
    assert "a" in GoalVars(g);
    assert ArgVars(g.target) == {};
    assert ArgVars(g.traitTerm) == {};
  }
}

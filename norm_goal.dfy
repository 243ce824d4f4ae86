/** `NormGoal`: "the projection `Alias` normalises to the variable `Var`". */
module NormGoals {
  import opened Terms
  import opened TermFacts
  import opened Substitution
  import opened TermMatches

  /** An `Alias` node; the record field is typed `Alias`. */
  type AliasTerm = t: Term | t.Alias? witness Alias(App("", []), App("", []), "")

  datatype NormGoal = NormGoal(alias: AliasTerm, resultVar: string)

  /**
   * `NormGoal.Substitute(match)`: only the alias is substituted, and the cast back to
   * `Alias` cannot fail because substitution keeps the root; `Var` is never rewritten.
   */
  function Substitute(g: NormGoal, m: TermMatch): (r: NormGoal)
    ensures r.resultVar == g.resultVar && r.alias.name == g.alias.name
    ensures r.alias.target == SubstituteMatch(g.alias.target, m)
    ensures r.alias.traitTerm == SubstituteMatch(g.alias.traitTerm, m)
  {
    SubstituteShape(g.alias, m.substitutions);
    NormGoal(SubstituteMatch(g.alias, m), g.resultVar)
  }

  /** Substituting the empty match yields an equal goal. */
  lemma SubstituteEmpty(g: NormGoal)
    ensures Substitute(g, Empty) == g
  {
    SubstituteUnmapped(g.alias, map[]);
  }

  /** No FreeVar in the alias. */
  predicate NonGeneric(g: NormGoal) {
    FreeVars(g.alias) == {}
  }

  /** `IsNonGeneric() => !Alias.Any<FreeVar>()` */
  function IsNonGeneric(g: NormGoal): (b: bool)
    ensures b <==> NonGeneric(g)
  {
    AnyFreeVarIffFreeVars(g.alias);
    !AnyOfKind(g.alias, KFreeVar)
  }

  /** The HashSet of the alias's descendant FreeVars, by name. */
  function DescendantNames(t: Term): (s: set<string>)
    ensures !t.FreeVar? ==> s == FreeVars(t)
  {
    var s := set d | d in Descendants(t, KFreeVar) :: d.name;
    forall x ensures !t.FreeVar? ==> (x in s <==> x in FreeVars(t)) {
      FreeVarsViaDescendants(t, x);
      if x in s {
        var d :| d in Descendants(t, KFreeVar) && d.name == x;
        assert d == FreeVar(x);
      }
    }
    s
  }

  /** `CountFreeVars() => Alias.Descendants<FreeVar>().ToHashSet().Count` */
  function CountFreeVars(g: NormGoal): (n: nat)
    ensures n == |FreeVars(g.alias)|
  {
    |DescendantNames(g.alias)|
  }

  /** The root of a norm goal is an Alias, so unlike an impl goal it is non-generic exactly when it counts no variable. */
  lemma NonGenericIffCountZero(g: NormGoal)
    ensures NonGeneric(g) <==> CountFreeVars(g) == 0
  {
  }

  /** Substitution with idempotent bindings leaves no bound variable in the alias. */
  lemma SubstituteIdempotent(g: NormGoal, m: TermMatch)
    requires Idempotent(m.substitutions)
    ensures FreeVars(Substitute(g, m).alias) !! m.substitutions.Keys
    ensures Substitute(Substitute(g, m), m) == Substitute(g, m)
  {
    Substitution.SubstituteIdempotent(g.alias, m.substitutions);
  }
}

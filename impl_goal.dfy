/** `ImplGoal`: "Target implements Trait", with associated-type constraints, resolving to a named slot. */
module ImplGoals {
  import opened Terms
  import opened TermFacts
  import opened Substitution
  import opened TermMatches

  datatype ImplGoal = ImplGoal(target: Term, traitTerm: Term, assoc: map<string, Term>, resolvesTo: string)

  function SubstituteAssoc(assoc: map<string, Term>, m: TermMatch): (r: map<string, Term>)
    ensures r.Keys == assoc.Keys
    ensures forall k :: k in r ==> r[k] == SubstituteMatch(assoc[k], m)
  {
    map k | k in assoc :: SubstituteMatch(assoc[k], m)
  }

  /**
   * `ImplGoal.Substitute(match)`: target, trait and every associated value are
   * substituted; the associated names and `ResolvesTo` are kept.
   */
  function Substitute(g: ImplGoal, m: TermMatch): (r: ImplGoal)
    ensures r.resolvesTo == g.resolvesTo && r.assoc.Keys == g.assoc.Keys
  {
    ImplGoal(SubstituteMatch(g.target, m), SubstituteMatch(g.traitTerm, m), SubstituteAssoc(g.assoc, m), g.resolvesTo)
  }

  /** The free variables of every term of the goal. */
  function GoalVars(g: ImplGoal): set<string> {
    FreeVars(g.target) + FreeVars(g.traitTerm) + (set k, x | k in g.assoc && x in FreeVars(g.assoc[k]) :: x)
  }

  /** Substituting the empty match yields an equal goal. */
  lemma SubstituteEmpty(g: ImplGoal)
    ensures Substitute(g, Empty) == g
  {
    SubstituteUnmapped(g.target, map[]);
    SubstituteUnmapped(g.traitTerm, map[]);
    forall k | k in g.assoc ensures SubstituteMatch(g.assoc[k], Empty) == g.assoc[k] {
      SubstituteUnmapped(g.assoc[k], map[]);
    }
  }

  /**
   * With bindings whose values mention none of the bound variables, no bound variable
   * is left in the goal, and substituting again changes nothing.
   */
  lemma SubstituteIdempotent(g: ImplGoal, m: TermMatch)
    requires Idempotent(m.substitutions)
    ensures GoalVars(Substitute(g, m)) !! m.substitutions.Keys
    ensures Substitute(Substitute(g, m), m) == Substitute(g, m)
  {
    var r := Substitute(g, m);
    Substitution.SubstituteIdempotent(g.target, m.substitutions);
    Substitution.SubstituteIdempotent(g.traitTerm, m.substitutions);
    forall k | k in g.assoc
      ensures FreeVars(r.assoc[k]) !! m.substitutions.Keys
      ensures SubstituteMatch(r.assoc[k], m) == r.assoc[k]
    {
      Substitution.SubstituteIdempotent(g.assoc[k], m.substitutions);
    }
  }

  // ---------------------------------------------------------------- IsNonGeneric

  /** No FreeVar anywhere in the target, the trait or an associated value. */
  predicate NonGeneric(g: ImplGoal) {
    GoalVars(g) == {}
  }

  /** `IsNonGeneric()`: three `Any<FreeVar>()` tests, the last one per associated value. */
  method IsNonGeneric(g: ImplGoal) returns (b: bool)
    ensures b <==> NonGeneric(g)
  {
    AnyFreeVarIffFreeVars(g.target);
    AnyFreeVarIffFreeVars(g.traitTerm);
    if AnyOfKind(g.target, KFreeVar) {
      return false;
    }
    if AnyOfKind(g.traitTerm, KFreeVar) {
      return false;
    }
    var todo := g.assoc.Keys;
    while todo != {}
      invariant todo <= g.assoc.Keys
      invariant forall k :: k in g.assoc && k !in todo ==> FreeVars(g.assoc[k]) == {}
      decreases todo
    {
      var k :| k in todo;
      AnyFreeVarIffFreeVars(g.assoc[k]);
      if AnyOfKind(g.assoc[k], KFreeVar) {
        var x :| x in FreeVars(g.assoc[k]);
        assert x in GoalVars(g);
        return false;
      }
      todo := todo - {k};
    }
    return true;
  }

  // ---------------------------------------------------------------- CountFreeVars

  /** The free variables of `t` strictly below its root: `Descendants` never yields the root. */
  function StrictVars(t: Term): set<string> {
    if t.FreeVar? then {} else FreeVars(t)
  }

  /** The union of the sets filed under `keys`. */
  function Union(sets: map<string, set<string>>, keys: set<string>): set<string> {
    set k, x | k in keys && k in sets && x in sets[k] :: x
  }

  lemma UnionAdd(sets: map<string, set<string>>, keys: set<string>, k: string)
    requires k in sets
    ensures Union(sets, keys + {k}) == Union(sets, keys) + sets[k]
  {
  }

  /** The strict free variables of each associated value. */
  function AssocStrictVars(assoc: map<string, Term>): (r: map<string, set<string>>)
    ensures r.Keys == assoc.Keys && forall k :: k in r ==> r[k] == StrictVars(assoc[k])
  {
    map k | k in assoc :: StrictVars(assoc[k])
  }

  /** The variables `CountFreeVars` collects. */
  function CountedVars(g: ImplGoal): set<string> {
    StrictVars(g.target) + StrictVars(g.traitTerm) + Union(AssocStrictVars(g.assoc), g.assoc.Keys)
  }

  /** The HashSet of FreeVars of a `Descendants<FreeVar>()` walk; FreeVars are equal when their names are. */
  function DescendantNames(t: Term): (s: set<string>)
    ensures s == StrictVars(t)
  {
    var s := set d | d in Descendants(t, KFreeVar) :: d.name;
    forall x ensures x in s <==> x in StrictVars(t) {
      FreeVarsViaDescendants(t, x);
      if x in s {
        var d :| d in Descendants(t, KFreeVar) && d.name == x;
        assert d == FreeVar(x);
      }
    }
    s
  }

  /** One iteration of `CountFreeVars`: `if (term.Any<FreeVar>()) vars.UnionWith(term.Descendants<FreeVar>())`. */
  method UnionDescendants(vars: set<string>, t: Term) returns (r: set<string>)
    ensures r == vars + StrictVars(t)
  {
    r := vars;
    if AnyOfKind(t, KFreeVar) {
      r := r + DescendantNames(t);
    } else {
      AnyFreeVarIffFreeVars(t);
    }
  }

  /** `CountFreeVars()`: the size of the union of the descendant FreeVars of every term of the goal. */
  method CountFreeVars(g: ImplGoal) returns (n: int)
    ensures n == |CountedVars(g)|
  {
    var vars := DescendantNames(g.target) + DescendantNames(g.traitTerm);
    ghost var base := vars;
    ghost var sets := AssocStrictVars(g.assoc);
    var todo := g.assoc.Keys;
    ghost var done: set<string> := {};
    while todo != {}
      invariant todo <= g.assoc.Keys && done == g.assoc.Keys - todo
      invariant vars == base + Union(sets, done)
      decreases todo
    {
      var k :| k in todo;
      UnionAdd(sets, done, k);
      vars := UnionDescendants(vars, g.assoc[k]);
      todo := todo - {k};
      done := done + {k};
    }
    assert done == g.assoc.Keys;
    assert vars == CountedVars(g);
    n := |vars|;
  }

  /** A goal without free variables counts none. */
  lemma NonGenericCountsNone(g: ImplGoal)
    requires NonGeneric(g)
    ensures |CountedVars(g)| == 0
  {
    assert CountedVars(g) <= GoalVars(g);
  }

  /**
   * Without a bare FreeVar as the target, the trait or an associated value, the count
   * is the number of free variables, and then it is zero exactly for non-generic goals.
   */
  lemma CountWithoutBareVars(g: ImplGoal)
    requires !g.target.FreeVar? && !g.traitTerm.FreeVar?
    requires forall k :: k in g.assoc ==> !g.assoc[k].FreeVar?
    ensures CountedVars(g) == GoalVars(g)
    ensures NonGeneric(g) <==> |CountedVars(g)| == 0
  {
    forall x ensures x in CountedVars(g) <==> x in GoalVars(g) {
      if x in GoalVars(g) && x !in FreeVars(g.target) && x !in FreeVars(g.traitTerm) {
        var k :| k in g.assoc && x in FreeVars(g.assoc[k]);
        assert x in Union(AssocStrictVars(g.assoc), g.assoc.Keys);
      }
    }
    if |CountedVars(g)| == 0 {
      assert CountedVars(g) == {};
    }
  }

  /** `?a: Eq` is generic, yet counts no free variable: the bare target is not a descendant. */
  lemma BareTargetNotCounted()
    ensures var g := ImplGoal(FreeVar("a"), App("Eq", []), map[], "g");
            !NonGeneric(g) && |CountedVars(g)| == 0
  {
    var g := ImplGoal(FreeVar("a"), App("Eq", []), map[], "g");
    assert "a" in GoalVars(g);
    assert FreeVars(App("Eq", [])) == {} by {
      assert FreeVarsOfArgs([]) == {};
    }
    assert CountedVars(g) == {};
  }
}

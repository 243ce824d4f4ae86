/**
 * `TermMatch`: the result of a unification, a map of FreeVar bindings together with the
 * equations between aliases the unifier did not decompose (the late goals).
 */
module TermMatches {
  import opened Terms
  import opened Substitution
  import EqGoals
  type EqGoal = EqGoals.EqGoal

  datatype TermMatch = TermMatch(substitutions: Bindings, lateGoals: seq<EqGoal>)

  /** `TermMatch.Empty` */
  const Empty: TermMatch := TermMatch(map[], [])

  /** `IsEmpty => Substitutions.Count == 0` */
  predicate IsEmpty(m: TermMatch) {
    |m.substitutions| == 0
  }

  /** `Empty` has no bindings and no late goals; `IsEmpty` holds iff there is no binding, whatever the late goals. */
  lemma EmptyFacts(m: TermMatch)
    ensures IsEmpty(Empty) && Empty.lateGoals == []
    ensures IsEmpty(m) <==> forall x :: x !in m.substitutions
  {
    if !IsEmpty(m) {
      var x :| x in m.substitutions.Keys;
    }
  }

  /** `PurgeGoals() => this with { LateGoals = [] }` */
  function PurgeGoals(m: TermMatch): (r: TermMatch)
    ensures r.substitutions == m.substitutions && r.lateGoals == []
  {
    TermMatch(m.substitutions, [])
  }

  /** `t.Substitute(TermMatch)`: only the bindings are used. */
  function SubstituteMatch(t: Term, m: TermMatch): Term {
    Substitute(t, m.substitutions)
  }

  /** Substituting a match ignores its late goals, and the empty match leaves every term unchanged. */
  lemma SubstituteMatchFacts(t: Term, m: TermMatch, goals: seq<EqGoal>)
    ensures SubstituteMatch(t, TermMatch(m.substitutions, goals)) == SubstituteMatch(t, m)
    ensures SubstituteMatch(t, Empty) == t
  {
    SubstituteUnmapped(t, map[]);
  }

  /**
   * `Merge` as written.  The first loop fills `result` from the ARGUMENT's bindings and
   * the second overwrites every one of those entries with the argument's binding, so
   * the receiver's bindings never reach the result.
   */
  method Merge(m: TermMatch, other: TermMatch) returns (r: TermMatch)
    ensures r.substitutions == other.substitutions
    ensures r.lateGoals == m.lateGoals + other.lateGoals
  {
    var result: Bindings := map[];
    var keys := other.substitutions.Keys;
    var todo := keys;
    while todo != {}
      invariant todo <= keys
      invariant result.Keys == keys - todo
      invariant forall k :: k in result ==> result[k] == SubstituteMatch(other.substitutions[k], other)
      decreases todo
    {
      var k :| k in todo;
      result := result[k := SubstituteMatch(other.substitutions[k], other)];
      todo := todo - {k};
    }
    todo := keys;
    while todo != {}
      invariant todo <= keys
      invariant result.Keys == keys
      invariant forall k :: k in keys - todo ==> result[k] == other.substitutions[k]
      decreases todo
    {
      var k :| k in todo;
      result := result[k := other.substitutions[k]];
      todo := todo - {k};
    }
    r := TermMatch(result, m.lateGoals + other.lateGoals);
  }

  /**
   * The bindings `Merge` evidently means to build: the receiver's bindings rewritten by
   * the argument's, then the argument's bindings, which win on a shared key.  This is
   * the merge of the older engine (`Term_Match.cs`, `Merge`).
   */
  function Merged(a: Bindings, b: Bindings): Bindings {
    map x | x in a.Keys + b.Keys :: if x in b then b[x] else Substitute(a[x], b)
  }

  /** `Merge` with the receiver's bindings taken into account, proved against `Merged`. */
  method MergeCorrected(m: TermMatch, other: TermMatch) returns (r: TermMatch)
    ensures r.substitutions == Merged(m.substitutions, other.substitutions)
    ensures r.lateGoals == m.lateGoals + other.lateGoals
  {
    var result: Bindings := map[];
    var todo := m.substitutions.Keys;
    while todo != {}
      invariant todo <= m.substitutions.Keys
      invariant result.Keys == m.substitutions.Keys - todo
      invariant forall k :: k in result ==> result[k] == SubstituteMatch(m.substitutions[k], other)
      decreases todo
    {
      var k :| k in todo;
      result := result[k := SubstituteMatch(m.substitutions[k], other)];
      todo := todo - {k};
    }
    todo := other.substitutions.Keys;
    while todo != {}
      invariant todo <= other.substitutions.Keys
      invariant result.Keys == m.substitutions.Keys + (other.substitutions.Keys - todo)
      invariant forall k :: k in result ==>
        result[k] == if k in other.substitutions && k !in todo then other.substitutions[k]
                     else SubstituteMatch(m.substitutions[k], other)
      decreases todo
    {
      var k :| k in todo;
      result := result[k := other.substitutions[k]];
      todo := todo - {k};
    }
    r := TermMatch(result, m.lateGoals + other.lateGoals);
  }

  /**
   * When the two maps bind different variables, applying the merged map is applying the
   * receiver's bindings and then the argument's.
   */
  lemma MergedComposes(a: Bindings, b: Bindings, t: Term)
    requires a.Keys !! b.Keys
    ensures Substitute(t, Merged(a, b)) == Substitute(Substitute(t, a), b)
  {
    SubstituteCompose(t, a, b);
    assert Merged(a, b) == Compose(a, b);
  }

  /**
   * Merging keeps the "no bound variable occurs in a binding value" property when the
   * argument was computed on terms already rewritten by the receiver.
   */
  lemma MergedIdempotent(a: Bindings, b: Bindings)
    requires Idempotent(a) && Idempotent(b)
    requires forall x :: x in b ==> FreeVars(b[x]) !! a.Keys
    ensures Idempotent(Merged(a, b))
  {
    var r := Merged(a, b);
    forall x | x in r
      ensures FreeVars(r[x]) !! r.Keys
    {
      if x !in b {
        forall y | y in FreeVars(r[x])
          ensures y !in r
        {
          FreeVarsOfSubstitute(a[x], b, y);
        }
      }
    }
  }

  /**
   * As written, the receiver's bindings are lost: after `?a := str` is merged with
   * `?b := bool`, `?a` is no longer bound, although the two bindings compose to a map
   * that binds both.
   */
  lemma MergeAsWrittenLosesBindings()
    ensures var a := map["a" := App("str", [])];
            var b := map["b" := App("bool", [])];
            "a" !in b && "a" in Merged(a, b) && Merged(a, b)["a"] == App("str", [])
  {
    var a := map["a" := App("str", [])];
    var b := map["b" := App("bool", [])];
    SubstituteUnmapped(App("str", []), b);
  }
}

/** `EqGoal`: an equation between two terms still to be unified. */
module EqGoals {
  import opened Terms
  import S = Substitution

  datatype EqGoal = EqGoal(left: Term, right: Term)

  /** `EqGoal.Substitute(match)`: both sides with the match's bindings, order kept. */
  function Substitute(g: EqGoal, m: S.Bindings): (r: EqGoal)
    ensures r.left == S.Substitute(g.left, m) && r.right == S.Substitute(g.right, m)
  {
    EqGoal(S.Substitute(g.left, m), S.Substitute(g.right, m))
  }

  /** Substituting with an empty map yields an equal goal. */
  lemma SubstituteEmpty(g: EqGoal)
    ensures Substitute(g, map[]) == g
  {
    S.SubstituteUnmapped(g.left, map[]);
    S.SubstituteUnmapped(g.right, map[]);
  }

  /**
   * With a map whose values contain none of its keys, no mapped variable is left on
   * either side, and substituting again changes nothing.
   */
  lemma SubstituteIdempotent(g: EqGoal, m: S.Bindings)
    requires S.Idempotent(m)
    ensures FreeVars(Substitute(g, m).left) !! m.Keys && FreeVars(Substitute(g, m).right) !! m.Keys
    ensures Substitute(Substitute(g, m), m) == Substitute(g, m)
  {
    S.SubstituteIdempotent(g.left, m);
    S.SubstituteIdempotent(g.right, m);
  }

  function SubstituteAll(gs: seq<EqGoal>, m: S.Bindings): (r: seq<EqGoal>)
    ensures |r| == |gs| && forall i :: 0 <= i < |gs| ==> r[i] == Substitute(gs[i], m)
  {
    seq(|gs|, i requires 0 <= i < |gs| => Substitute(gs[i], m))
  }
}

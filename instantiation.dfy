/** `Instatiation`: the impl chosen for a goal slot, its type arguments and the slots of its constraints. */
module Instantiations {
  import opened Terms
  import opened Substitution
  import opened TermMatches

  datatype Instatiation = Instatiation(implName: string, vars: seq<Term>, constraints: seq<string>)

  /** `Substitute(match)`: the type arguments rewritten one by one; the name and the slot names kept. */
  function Substitute(inst: Instatiation, m: TermMatch): (r: Instatiation)
    ensures r.implName == inst.implName && r.constraints == inst.constraints
    ensures |r.vars| == |inst.vars|
    ensures forall i :: 0 <= i < |r.vars| ==> r.vars[i] == SubstituteMatch(inst.vars[i], m)
  {
    Instatiation(inst.implName, SubstituteArgs(inst.vars, m.substitutions), inst.constraints)
  }

  lemma SubstituteEmpty(inst: Instatiation)
    ensures Substitute(inst, Empty) == inst
  {
    forall i | 0 <= i < |inst.vars| ensures SubstituteMatch(inst.vars[i], Empty) == inst.vars[i] {
      SubstituteUnmapped(inst.vars[i], map[]);
    }
  }
}

/**
 * The clause records of the current engine (the files under `Clauses`).  A clause's type
 * parameters are BoundVars, identified here by their index.  `ImplClause` and
 * `ImplConstraint` carry the associated-type constraints (`AssocConstraints`) and
 * `ImplConstraint` the BoundVar substitution that the solver files use; those members
 * are not in the records shown, so they are read off their call sites.
 */
module Clauses {
  import opened Terms
  import opened Substitution
  import Consts

  /** `Target: Trait<Assoc = value, ...>` */
  datatype ImplConstraint = ImplConstraint(target: Term, traitTerm: Term, assoc: map<string, Term>)

  datatype Clause =
      // `impl Name<TyParams> Target: Trait where Constraints`
    | ImplClause(name: string, tyParams: seq<int>, target: Term, traitTerm: Term,
                 constraints: seq<ImplConstraint>, assoc: map<string, Term>)
      // an associated type `AliasName` of `Trait` that implements `Constraint`
    | AssocTyClause(selfParam: int, tyParams: seq<int>, traitTerm: Term, aliasName: string,
                    constraint: Term, assoc: map<string, Term>)
      // `Target::<Trait>::AliasName` reduces to `Aliased` under `ImplConstraint`
    | AliasImplClause(tyParams: seq<int>, target: Term, traitTerm: Term, aliasName: string,
                      aliased: Term, implConstraint: ImplConstraint)
    | AliasClause(tyParams: seq<int>, target: Term, traitTerm: Term, aliasName: string,
                  aliased: Term, implConstraint: ImplConstraint)
    | LitClause(litVar: string, defaultConstType: Consts.ConstType, allowedConstTypes: set<Consts.ConstType>)

  /** The type parameters of a clause; a `LitClause` has none. */
  function TyParams(c: Clause): seq<int> {
    if c.LitClause? then [] else c.tyParams
  }

  /** `ToDictionary` over the type parameters throws on a repeated one. */
  predicate DistinctTyParams(c: Clause) {
    forall i, j :: 0 <= i < j < |TyParams(c)| ==> TyParams(c)[i] != TyParams(c)[j]
  }

  function SubstituteBoundValues(m: map<string, Term>, s: map<int, Term>): (r: map<string, Term>)
    ensures r.Keys == m.Keys
    ensures forall k :: k in r ==> r[k] == SubstituteBound(m[k], s)
  {
    map k | k in m :: SubstituteBound(m[k], s)
  }

  /** `ImplConstraint.Substitute(IReadOnlyDictionary<BoundVar, Term>)`: target, trait and every associated value. */
  function SubstituteConstraint(c: ImplConstraint, s: map<int, Term>): (r: ImplConstraint)
    ensures r.assoc.Keys == c.assoc.Keys
  {
    ImplConstraint(SubstituteBound(c.target, s), SubstituteBound(c.traitTerm, s), SubstituteBoundValues(c.assoc, s))
  }

  /** A substitution for none of the constraint's BoundVars leaves it as it is. */
  lemma SubstituteConstraintUnmapped(c: ImplConstraint, s: map<int, Term>)
    requires BoundVars(c.target) !! s.Keys && BoundVars(c.traitTerm) !! s.Keys
    requires forall k :: k in c.assoc ==> BoundVars(c.assoc[k]) !! s.Keys
    ensures SubstituteConstraint(c, s) == c
  {
    SubstituteBoundUnmapped(c.target, s);
    SubstituteBoundUnmapped(c.traitTerm, s);
    forall k | k in c.assoc ensures SubstituteBound(c.assoc[k], s) == c.assoc[k] {
      SubstituteBoundUnmapped(c.assoc[k], s);
    }
  }
}

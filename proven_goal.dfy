/**
 * The proof bookkeeping records: `ProvenGoal` (a clause applied with some arguments, kept
 * for the cycle check), `ReuseImplGoal` (a proved target/trait pair, kept for reuse) and
 * `ProvenImplGoal`.  BoundVar-keyed dictionaries are maps from the BoundVar index.
 */
module ProvenGoals {
  import opened Terms
  import opened Substitution
  import opened TermMatches
  import opened Clauses

  datatype ProvenGoal = ProvenGoal(clause: Clause, args: map<int, Term>)

  function SubstituteArgs(args: map<int, Term>, m: TermMatch): (r: map<int, Term>)
    ensures r.Keys == args.Keys && |r| == |args|
    ensures forall k :: k in r ==> r[k] == SubstituteMatch(args[k], m)
  {
    var r := map k | k in args :: SubstituteMatch(args[k], m);
    assert r.Keys == args.Keys;
    r
  }

  /** The empty match leaves every argument as it is. */
  lemma SubstituteArgsEmpty(args: map<int, Term>)
    ensures SubstituteArgs(args, Empty) == args
  {
    forall k | k in args ensures SubstituteMatch(args[k], Empty) == args[k] {
      SubstituteUnmapped(args[k], map[]);
    }
  }

  /** `ProvenGoal.Substitute(match)`: the clause and the BoundVar keys are kept, every argument value substituted. */
  function Substitute(g: ProvenGoal, m: TermMatch): (r: ProvenGoal)
    ensures r.clause == g.clause && r.args.Keys == g.args.Keys && |r.args| == |g.args|
  {
    g.(args := SubstituteArgs(g.args, m))
  }

  lemma SubstituteEmpty(g: ProvenGoal)
    ensures Substitute(g, Empty) == g
  {
    SubstituteArgsEmpty(g.args);
  }

  datatype ReuseImplGoal = ReuseImplGoal(target: Term, traitTerm: Term, resolvesTo: string)

  /** `ReuseImplGoal.Substitute(match)`: target and trait substituted, `ResolvesTo` kept. */
  function SubstituteReuse(g: ReuseImplGoal, m: TermMatch): (r: ReuseImplGoal)
    ensures r.resolvesTo == g.resolvesTo
  {
    g.(target := SubstituteMatch(g.target, m), traitTerm := SubstituteMatch(g.traitTerm, m))
  }

  lemma SubstituteReuseEmpty(g: ReuseImplGoal)
    ensures SubstituteReuse(g, Empty) == g
  {
    SubstituteUnmapped(g.target, map[]);
    SubstituteUnmapped(g.traitTerm, map[]);
  }

  /** An `ImplClause`. */
  type ImplClauseValue = c: Clause | c.ImplClause? witness ImplClause("", [], App("", []), App("", []), [], map[])

  /** `chain` is the index of a `ProofChain` node. */
  datatype ProvenImplGoal = ProvenImplGoal(impl: ImplClauseValue, target: Term, traitTerm: Term, chain: nat,
                                           args: map<int, Term>, resolvesTo: string)

  /** `ProvenImplGoal.Substitute(match)`: `Impl`, `Chain`, `ResolvesTo` and the argument keys are kept. */
  function SubstituteProvenImpl(g: ProvenImplGoal, m: TermMatch): (r: ProvenImplGoal)
    ensures r.impl == g.impl && r.chain == g.chain && r.resolvesTo == g.resolvesTo && r.args.Keys == g.args.Keys
  {
    ProvenImplGoal(g.impl, SubstituteMatch(g.target, m), SubstituteMatch(g.traitTerm, m), g.chain,
                   SubstituteArgs(g.args, m), g.resolvesTo)
  }

  lemma SubstituteProvenImplEmpty(g: ProvenImplGoal)
    ensures SubstituteProvenImpl(g, Empty) == g
  {
    SubstituteUnmapped(g.target, map[]);
    SubstituteUnmapped(g.traitTerm, map[]);
    SubstituteArgsEmpty(g.args);
  }
}

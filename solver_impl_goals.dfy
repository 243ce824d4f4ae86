/**
 * Candidate generation for impl goals (`Solver_ImplGoals.cs`): every clause that can
 * prove the elected goal becomes a new solver state, after the cycle check on the
 * goal's proof chain, the recursion-depth bound and the reuse cache have had their say.
 *
 * The runtime makes choices the source does not pin down: the numbers the fresh-name
 * counters hand out, the proof-chain nodes created, and the order a dictionary is
 * enumerated in.  Each method reports the choices it made as ghost outputs, and its
 * result is a function of its inputs and those choices.
 */
module SolverImplGoals {
  import opened Wrappers
  import opened Terms
  import opened Substitution
  import opened TermMatches
  import opened Clauses
  import opened ProofChains
  import opened FreshNames
  import opened SolverStates
  import ImplGoals
  import EqGoals
  import ProvenGoals
  import Instantiations
  import Unifier
  import TermMatching
  import UnifierFacts

  // ------------------------------------------------------------------ clause arguments

  /** Every type parameter of the clause has a fresh variable, and the match binds it. */
  predicate BindsAll(clause: Clause, subs: TermMatch, varMap: VarMap) {
    forall p :: p in TyParams(clause) ==> p in varMap && varMap[p] in subs.substitutions
  }

  /** `TyParams.ToDictionary(x => x, x => substitutions.Substitutions[varMap[x]])` */
  function ParamValues(clause: Clause, subs: TermMatch, varMap: VarMap): (r: map<int, Term>)
    requires BindsAll(clause, subs, varMap)
    ensures r.Keys == TyParamSet(clause)
  {
    map p | p in TyParams(clause) :: subs.substitutions[varMap[p]]
  }

  /** `TyParams.Select(p => substitutions.Substitutions[varMap[p]])`: the same values, in parameter order. */
  function ParamList(clause: Clause, subs: TermMatch, varMap: VarMap): (r: seq<Term>)
    requires BindsAll(clause, subs, varMap)
    ensures |r| == |TyParams(clause)|
    ensures forall i :: 0 <= i < |r| ==> r[i] == ParamValues(clause, subs, varMap)[TyParams(clause)[i]]
  {
    var ps := TyParams(clause);
    var values := ParamValues(clause, subs, varMap);
    assert forall i :: 0 <= i < |ps| ==> ps[i] in values;
    seq(|ps|, i requires 0 <= i < |ps| && ps[i] in values => values[ps[i]])
  }

  // ------------------------------------------------------------------ cycle check

  /** `IsInfiniteRecursion(onStackArgs, newArgs)`: every new argument contains the recorded one. */
  predicate IsInfiniteRecursion(onStack: map<int, Term>, newArgs: map<int, Term>, contains: (Term, Term) -> bool)
    requires newArgs.Keys <= onStack.Keys
  {
    forall k :: k in newArgs ==> contains(newArgs[k], onStack[k])
  }

  /** Entry `i` of `list` applied the same clause, with arguments that the new ones all contain. */
  predicate Repeats(list: seq<ProvenGoals.ProvenGoal>, i: int, clause: Clause, args: map<int, Term>,
                    contains: (Term, Term) -> bool)
  {
    && 0 <= i < |list| && list[i].clause == clause && args.Keys <= list[i].args.Keys
    && IsInfiniteRecursion(list[i].args, args, contains)
  }

  /** Some application recorded on `node` is repeated by the new one. */
  ghost predicate RepeatedOn(proven: map<nat, seq<ProvenGoals.ProvenGoal>>, node: nat, clause: Clause,
                             args: map<int, Term>, contains: (Term, Term) -> bool)
  {
    node in proven && exists i :: Repeats(proven[node], i, clause, args, contains)
  }

  /** The cycle check fails: the application repeats one recorded on the node or on an ancestor. */
  ghost predicate Cycles(parents: seq<Option<nat>>, node: nat, proven: map<nat, seq<ProvenGoals.ProvenGoal>>,
                         clause: Clause, args: map<int, Term>, contains: (Term, Term) -> bool)
    requires ValidParents(parents) && node < |parents|
  {
    exists j :: j in Chain(parents, node) && RepeatedOn(proven, j, clause, args, contains)
  }

  /** The `foreach (var pg in list)` of the cycle check. */
  method FindRepeat(list: seq<ProvenGoals.ProvenGoal>, clause: Clause, args: map<int, Term>, contains: (Term, Term) -> bool)
    returns (found: bool)
    requires forall i :: 0 <= i < |list| && list[i].clause == clause ==> args.Keys <= list[i].args.Keys
    ensures found <==> exists i :: Repeats(list, i, clause, args, contains)
  {
    for i := 0 to |list|
      invariant forall j :: 0 <= j < i ==> !Repeats(list, j, clause, args, contains)
    {
      if list[i].clause == clause && IsInfiniteRecursion(list[i].args, args, contains) {
        assert Repeats(list, i, clause, args, contains);
        return true;
      }
    }
    return false;
  }

  /**
   * `TryAddProvenImplGoal`: walks the proof chain from the goal's node to the root; the
   * application is refused iff some node on the way recorded the same clause with
   * arguments that the new ones all contain, and is otherwise recorded on the goal's node.
   */
  method TryAddProvenImplGoal(arena: ProofChainArena, proofChain: nat, proven: map<nat, seq<ProvenGoals.ProvenGoal>>,
                              clause: Clause, subs: TermMatch, varMap: VarMap, contains: (Term, Term) -> bool)
    returns (ok: bool, r: map<nat, seq<ProvenGoals.ProvenGoal>>)
    requires arena.Valid() && proofChain < |arena.parents|
    requires (clause.ImplClause? || clause.AssocTyClause?) && DistinctTyParams(clause)
    requires BindsAll(clause, subs, varMap) && ProvenKeys(proven)
    ensures ok <==> !Cycles(arena.parents, proofChain, proven, clause, ParamValues(clause, subs, varMap), contains)
    ensures ok ==> r == Record(proven, proofChain, ProvenGoals.ProvenGoal(clause, ParamValues(clause, subs, varMap)))
    ensures !ok ==> r == proven
    ensures ProvenKeys(r)
  {
    var args := ParamValues(clause, subs, varMap);
    var chain: Option<nat> := Some(proofChain);
    ghost var visited: set<nat> := {};
    while chain.Some?
      invariant chain.Some? ==> chain.value < |arena.parents|
      invariant visited + (if chain.Some? then Chain(arena.parents, chain.value) else {}) == Chain(arena.parents, proofChain)
      invariant forall j :: j in visited ==> !RepeatedOn(proven, j, clause, args, contains)
      decreases if chain.Some? then chain.value + 1 else 0
    {
      if chain.value in proven {
        var found := FindRepeat(proven[chain.value], clause, args, contains);
        if found {
          assert RepeatedOn(proven, chain.value, clause, args, contains);
          return false, proven;
        }
      }
      visited := visited + {chain.value};
      chain := arena.Parent(chain.value);
    }
    var pg := ProvenGoals.ProvenGoal(clause, args);
    RecordKeepsKeys(proven, proofChain, pg);
    ok, r := true, Record(proven, proofChain, pg);
  }

  /**
   * A clause without type parameters is applied at most once along a chain: once it
   * is recorded on a node, the check refuses it on that node and on every descendant.
   */
  lemma NoParamsOncePerChain(parents: seq<Option<nat>>, node: nat, ancestor: nat,
                             proven: map<nat, seq<ProvenGoals.ProvenGoal>>, i: nat, contains: (Term, Term) -> bool)
    requires ValidParents(parents) && node < |parents| && ancestor in Chain(parents, node)
    requires ancestor in proven && i < |proven[ancestor]| && TyParams(proven[ancestor][i].clause) == []
    requires ProvenKeys(proven)
    ensures Cycles(parents, node, proven, proven[ancestor][i].clause, map[], contains)
  {
    assert Repeats(proven[ancestor], i, proven[ancestor][i].clause, map[], contains);
  }

  // ------------------------------------------------------------------ fresh names

  /** The names `prefix<seed+1>`, ..., `prefix<seed+n>`. */
  function Names(prefix: string, seed: nat, n: nat): (r: seq<string>)
    ensures |r| == n
  {
    seq(n, i requires 0 <= i < n => FreshName(prefix, seed + i + 1))
  }

  /** Names numbered above the counter were never handed out, and no two of them are equal. */
  lemma NamesFresh(seed: NameSeed, n: nat)
    requires seed.Valid()
    ensures forall i :: 0 <= i < n ==> Names(seed.prefix, seed.value, n)[i] !in seed.issued
    ensures forall i, j :: 0 <= i < j < n ==> Names(seed.prefix, seed.value, n)[i] != Names(seed.prefix, seed.value, n)[j]
  {
    var names := Names(seed.prefix, seed.value, n);
    forall i | 0 <= i < n ensures names[i] !in seed.issued {
      forall k: nat | 1 <= k <= seed.value ensures FreshName(seed.prefix, k) != names[i] {
        FreshNamesDistinct(seed.prefix, k, seed.value + i + 1);
      }
    }
    forall i, j | 0 <= i < j < n ensures names[i] != names[j] {
      FreshNamesDistinct(seed.prefix, seed.value + i + 1, seed.value + j + 1);
    }
  }

  /** `n` calls of `$"{prefix}{++seed}"`. */
  method NewNames(seed: NameSeed, n: nat) returns (names: seq<string>)
    requires seed.Valid()
    modifies seed
    ensures seed.Valid() && seed.value == old(seed.value) + n
    ensures names == Names(seed.prefix, old(seed.value), n)
  {
    names := [];
    for i := 0 to n
      invariant seed.Valid() && seed.value == old(seed.value) + i
      invariant names == Names(seed.prefix, old(seed.value), i)
    {
      var name := seed.Next();
      names := names + [name];
    }
  }

  /** `FreeVar.New()` once per type parameter, in order. */
  function FreshVarMap(tyParams: seq<int>, seed: nat): (m: VarMap) {
    if tyParams == [] then map[]
    else
      var n := |tyParams| - 1;
      FreshVarMap(tyParams[..n], seed)[tyParams[n] := FreshName("?", seed + n + 1)]
  }

  /** Exactly the type parameters get a variable, and parameter `i` gets `?<seed+i+1>`. */
  lemma {:induction false} FreshVarMapFacts(tyParams: seq<int>, seed: nat)
    requires forall i, j :: 0 <= i < j < |tyParams| ==> tyParams[i] != tyParams[j]
    ensures forall p :: p in FreshVarMap(tyParams, seed) <==> p in tyParams
    ensures forall i :: 0 <= i < |tyParams| ==>
      tyParams[i] in FreshVarMap(tyParams, seed) && FreshVarMap(tyParams, seed)[tyParams[i]] == FreshName("?", seed + i + 1)
  {
    if tyParams != [] {
      var n := |tyParams| - 1;
      var init := tyParams[..n];
      FreshVarMapFacts(init, seed);
      assert tyParams == init + [tyParams[n]];
    }
  }

  /** `TyParams.Select(x => (x, FreeVar.New())).ToDictionary(...)` */
  method FreshVars(tyParams: seq<int>, seed: NameSeed) returns (varMap: VarMap)
    requires seed.Valid() && seed.prefix == "?"
    requires forall i, j :: 0 <= i < j < |tyParams| ==> tyParams[i] != tyParams[j]
    modifies seed
    ensures seed.Valid() && seed.value == old(seed.value) + |tyParams|
    ensures varMap == FreshVarMap(tyParams, old(seed.value))
  {
    varMap := map[];
    ghost var s0 := seed.value;
    for i := 0 to |tyParams|
      invariant seed.Valid() && seed.value == s0 + i
      invariant varMap == FreshVarMap(tyParams[..i], s0)
    {
      var v := NewFreeVar(seed);
      assert tyParams[..i + 1][..i] == tyParams[..i];
      varMap := varMap[tyParams[i] := v.name];
    }
    assert tyParams[..|tyParams|] == tyParams;
  }

  // ------------------------------------------------------------------ instantiation

  /** How many `$g` slots an instantiation of the clause takes. */
  function SlotCount(clause: Clause): nat {
    if clause.ImplClause? then |clause.constraints| else 1
  }

  /**
   * The instantiation a clause gets: the impl's name (the alias name for an
   * AssocTyClause, where it is never read), the type-parameter values in order, and
   * fresh slots numbered from the counter `goalSeed`.
   */
  function NewInstantiation(clause: Clause, subs: TermMatch, varMap: VarMap, goalSeed: nat): Instantiations.Instatiation
    requires (clause.ImplClause? || clause.AssocTyClause?) && BindsAll(clause, subs, varMap)
  {
    Instantiations.Instatiation(if clause.ImplClause? then clause.name else clause.aliasName,
                                ParamList(clause, subs, varMap), Names("$g", goalSeed, SlotCount(clause)))
  }

  /**
   * `AddNewInstantiation`: the new instantiation, stored under the goal's `ResolvesTo`
   * for an ImplClause only; its slots were never handed out before.
   */
  method AddNewInstantiation(instantiations: map<string, Instantiations.Instatiation>, subs: TermMatch, varMap: VarMap,
                             clause: Clause, goal: RecImplGoalChain, goalSeed: NameSeed)
    returns (insts: map<string, Instantiations.Instatiation>, inst: Instantiations.Instatiation)
    requires goalSeed.Valid() && goalSeed.prefix == "$g"
    requires (clause.ImplClause? || clause.AssocTyClause?) && BindsAll(clause, subs, varMap)
    modifies goalSeed
    ensures goalSeed.Valid() && goalSeed.value == old(goalSeed.value) + SlotCount(clause)
    ensures inst == NewInstantiation(clause, subs, varMap, old(goalSeed.value))
    ensures forall i :: 0 <= i < |inst.constraints| ==> inst.constraints[i] !in old(goalSeed.issued)
    ensures insts == if clause.ImplClause? then instantiations[goal.goal.resolvesTo := inst] else instantiations
  {
    NamesFresh(goalSeed, SlotCount(clause));
    var slots := NewNames(goalSeed, SlotCount(clause));
    if clause.ImplClause? {
      inst := Instantiations.Instatiation(clause.name, ParamList(clause, subs, varMap), slots);
      insts := instantiations[goal.goal.resolvesTo := inst];
    } else {
      inst := Instantiations.Instatiation(clause.aliasName, ParamList(clause, subs, varMap), slots);
      insts := instantiations;
    }
  }

  // ------------------------------------------------------------------ requirements

  /** The impl goal a constraint asks for, under the clause's parameter values, filling `slot`. */
  function ConstraintGoal(c: ImplConstraint, values: map<int, Term>, slot: string): ImplGoals.ImplGoal {
    var sc := SubstituteConstraint(c, values);
    ImplGoals.ImplGoal(sc.target, sc.traitTerm, sc.assoc, slot)
  }

  /** The sub-goals of an ImplClause: constraint `i` fills slot `i`, on new node `firstNode + i`, one level deeper. */
  function Requirements(clause: Clause, values: map<int, Term>, goal: RecImplGoalChain, slots: seq<string>,
                        firstNode: nat): (r: seq<RecImplGoalChain>)
    requires clause.ImplClause? ==> |slots| >= |clause.constraints|
  {
    if clause.ImplClause? then
      var cs := clause.constraints;
      seq(|cs|, i requires 0 <= i < |cs| =>
        RecImplGoalChain(ConstraintGoal(cs[i], values, slots[i]), firstNode + i, goal.depth + 1))
    else []
  }

  /** The proof-chain nodes the sub-goals get: one child of the goal's node per constraint. */
  function ChildNodes(clause: Clause, goal: RecImplGoalChain): seq<Option<nat>> {
    if clause.ImplClause? then seq(|clause.constraints|, _ => Some(goal.chain)) else []
  }

  /** `AddRequirementsFromInstantiation`: appends the sub-goals, on new child nodes; an AssocTyClause adds none. */
  method AddRequirementsFromInstantiation(subs: TermMatch, varMap: VarMap, clause: Clause, goal: RecImplGoalChain,
                                          inst: Instantiations.Instatiation, implGoals: seq<RecImplGoalChain>,
                                          arena: ProofChainArena)
    returns (r: seq<RecImplGoalChain>)
    requires arena.Valid() && goal.chain < |arena.parents|
    requires (clause.ImplClause? || clause.AssocTyClause?) && BindsAll(clause, subs, varMap)
    requires clause.ImplClause? ==> |inst.constraints| >= |clause.constraints|
    modifies arena
    ensures arena.Valid() && arena.parents == old(arena.parents) + ChildNodes(clause, goal)
    ensures r == implGoals + Requirements(clause, ParamValues(clause, subs, varMap), goal, inst.constraints,
                                          |old(arena.parents)|)
  {
    r := implGoals;
    if clause.ImplClause? {
      var values := ParamValues(clause, subs, varMap);
      var cs := clause.constraints;
      ghost var n0 := |arena.parents|;
      ghost var all := Requirements(clause, values, goal, inst.constraints, n0);
      for i := 0 to |cs|
        invariant arena.Valid() && arena.parents == old(arena.parents) + ChildNodes(clause, goal)[..i]
        invariant r == implGoals + all[..i]
      {
        var c := cs[i];
        var n := inst.constraints[i];
        assert ChildNodes(clause, goal)[..i + 1] == ChildNodes(clause, goal)[..i] + [Some(goal.chain)];
        var node := arena.New(Some(goal.chain));
        r := r + [RecImplGoalChain(ConstraintGoal(c, values, n), node, goal.depth + 1)];
        assert all[..i + 1] == all[..i] + [all[i]];
      }
      assert ChildNodes(clause, goal)[..|cs|] == ChildNodes(clause, goal);
      assert all[..|cs|] == all;
    }
  }

  // ------------------------------------------------------------------ eq goals

  /** `foreach` over a dictionary, in the order the runtime picks. */
  method Enumerate<V>(m: map<string, V>) returns (e: seq<(string, V)>)
    ensures EntriesOf(e, m)
  {
    e := [];
    var todo := m.Keys;
    while todo != {}
      invariant todo <= m.Keys
      invariant forall i :: 0 <= i < |e| ==> e[i].0 in m && e[i].0 !in todo && m[e[i].0] == e[i].1
      invariant forall i, j :: 0 <= i < j < |e| ==> e[i].0 != e[j].0
      invariant forall k :: k in m && k !in todo ==> exists i :: 0 <= i < |e| && e[i].0 == k
      decreases todo
    {
      var k :| k in todo;
      ghost var e0 := e;
      e := e + [(k, m[k])];
      forall k' | k' in m && k' !in todo - {k} ensures exists i :: 0 <= i < |e| && e[i].0 == k' {
        if k' == k {
          assert e[|e| - 1].0 == k;
        } else {
          var i :| 0 <= i < |e0| && e0[i].0 == k';
          assert e[i].0 == k';
        }
      }
      todo := todo - {k};
    }
  }

  /** `EqGoal(Alias(Target, Trait, key), value)` for each associated constraint, in enumeration order. */
  function AssocTraitGoals(g: ImplGoals.ImplGoal, entries: seq<(string, Term)>): (r: seq<EqGoals.EqGoal>)
    ensures |r| == |entries|
  {
    seq(|entries|, i requires 0 <= i < |entries| =>
      EqGoals.EqGoal(Alias(g.target, g.traitTerm, entries[i].0), entries[i].1))
  }

  /** `EqGoal(variable, value)` for each binding, in enumeration order. */
  function BindingGoals(entries: seq<(string, Term)>): (r: seq<EqGoals.EqGoal>)
    ensures |r| == |entries|
  {
    seq(|entries|, i requires 0 <= i < |entries| => EqGoals.EqGoal(FreeVar(entries[i].0), entries[i].1))
  }

  /** `AddAssocTraitGoals` */
  method AddAssocTraitGoals(eqGoals: seq<EqGoals.EqGoal>, goal: ImplGoals.ImplGoal)
    returns (r: seq<EqGoals.EqGoal>, ghost entries: seq<(string, Term)>)
    ensures EntriesOf(entries, goal.assoc) && r == eqGoals + AssocTraitGoals(goal, entries)
  {
    var e := Enumerate(goal.assoc);
    r := eqGoals;
    for i := 0 to |e|
      invariant r == eqGoals + AssocTraitGoals(goal, e[..i])
    {
      assert AssocTraitGoals(goal, e[..i + 1]) == AssocTraitGoals(goal, e[..i]) + [EqGoals.EqGoal(Alias(goal.target, goal.traitTerm, e[i].0), e[i].1)];
      r := r + [EqGoals.EqGoal(Alias(goal.target, goal.traitTerm, e[i].0), e[i].1)];
    }
    assert e[..|e|] == e;
    entries := e;
  }

  /** `AddSubstitutionsAsEqGoals` */
  method AddSubstitutionsAsEqGoals(subs: TermMatch, eqGoals: seq<EqGoals.EqGoal>)
    returns (r: seq<EqGoals.EqGoal>, ghost entries: seq<(string, Term)>)
    ensures EntriesOf(entries, subs.substitutions) && r == eqGoals + BindingGoals(entries)
  {
    var e := Enumerate(subs.substitutions);
    r := eqGoals;
    for i := 0 to |e|
      invariant r == eqGoals + BindingGoals(e[..i])
    {
      assert BindingGoals(e[..i + 1]) == BindingGoals(e[..i]) + [EqGoals.EqGoal(FreeVar(e[i].0), e[i].1)];
      r := r + [EqGoals.EqGoal(FreeVar(e[i].0), e[i].1)];
    }
    assert e[..|e|] == e;
    entries := e;
  }

  /** Each entry of a dictionary yields one goal, and each goal comes from one entry. */
  lemma AssocTraitGoalsCover(g: ImplGoals.ImplGoal, entries: seq<(string, Term)>)
    requires EntriesOf(entries, g.assoc)
    ensures |AssocTraitGoals(g, entries)| == |g.assoc|
    ensures forall k :: k in g.assoc ==> EqGoals.EqGoal(Alias(g.target, g.traitTerm, k), g.assoc[k]) in AssocTraitGoals(g, entries)
    ensures forall e :: e in AssocTraitGoals(g, entries) ==>
      e.left.Alias? && e.left.target == g.target && e.left.traitTerm == g.traitTerm
      && e.left.name in g.assoc && e.right == g.assoc[e.left.name]
  {
    EntriesCount(entries, g.assoc);
    var r := AssocTraitGoals(g, entries);
    forall k | k in g.assoc ensures EqGoals.EqGoal(Alias(g.target, g.traitTerm, k), g.assoc[k]) in r {
      var i :| 0 <= i < |entries| && entries[i].0 == k;
      assert r[i] == EqGoals.EqGoal(Alias(g.target, g.traitTerm, k), g.assoc[k]);
    }
  }

  /** The binding goals say `?x = value` exactly for the bindings of the match, once each. */
  lemma BindingGoalsCover(b: Bindings, entries: seq<(string, Term)>)
    requires EntriesOf(entries, b)
    ensures |BindingGoals(entries)| == |b|
    ensures forall k :: k in b ==> EqGoals.EqGoal(FreeVar(k), b[k]) in BindingGoals(entries)
    ensures forall e :: e in BindingGoals(entries) ==> e.left.FreeVar? && e.left.name in b && e.right == b[e.left.name]
  {
    EntriesCount(entries, b);
    var r := BindingGoals(entries);
    forall k | k in b ensures EqGoals.EqGoal(FreeVar(k), b[k]) in r {
      var i :| 0 <= i < |entries| && entries[i].0 == k;
      assert r[i] == EqGoals.EqGoal(FreeVar(k), b[k]);
    }
  }

  /** An enumeration has one entry per key. */
  lemma EntriesCount<V>(e: seq<(string, V)>, m: map<string, V>)
    requires EntriesOf(e, m)
    ensures |e| == |m|
  {
    var keys := set i | 0 <= i < |e| :: e[i].0;
    assert keys == m.Keys;
    DistinctCard(e);
  }

  /** The keys of an enumeration with distinct keys number as many as its entries. */
  lemma {:induction false} DistinctCard<V>(e: seq<(string, V)>)
    requires forall i, j :: 0 <= i < j < |e| ==> e[i].0 != e[j].0
    ensures |set i | 0 <= i < |e| :: e[i].0| == |e|
  {
    if e != [] {
      var e' := e[..|e| - 1];
      DistinctCard(e');
      var keys' := set i | 0 <= i < |e'| :: e'[i].0;
      var keys := set i | 0 <= i < |e| :: e[i].0;
      assert keys == keys' + {e[|e| - 1].0};
      assert e[|e| - 1].0 !in keys';
    }
  }

  // ------------------------------------------------------------------ candidates

  /** The choices the runtime makes while one candidate is built. */
  datatype BuildParams = BuildParams(
    parents: seq<Option<nat>>,                 // the proof-chain nodes before
    goalSeed: nat,                             // `_goalSeed` before
    assocEntries: seq<(string, Term)>,         // the enumeration of the goal's associated constraints
    bindingEntries: seq<(string, Term)>)       // the enumeration of the match's bindings

  /** What `BuildCandidate` needs of its caller. */
  ghost predicate BuildReady(s: SolverState, subs: TermMatch, varMap: VarMap, clause: Clause, goal: RecImplGoalChain,
                             p: BuildParams)
  {
    && ValidParents(p.parents) && goal.chain < |p.parents|
    && (clause.ImplClause? || clause.AssocTyClause?) && DistinctTyParams(clause) && BindsAll(clause, subs, varMap)
    && ProvenKeys(s.provenGoals)
    && (clause.ImplClause? && ReuseKey(goal) in s.reuseImplGoals ==>
          s.reuseImplGoals[ReuseKey(goal)].resolvesTo in s.instantiations)
  }

  /**
   * `TryReuseExistingProof`: when the goal's `(Target, Trait)` was proved before, the
   * goal's slot names the cached slot's instantiation and nothing else is added.
   */
  function TryReuseExistingProof(s: SolverState, goal: RecImplGoalChain, implGoals: seq<RecImplGoalChain>)
    : (r: Option<SolverState>)
    requires ReuseKey(goal) in s.reuseImplGoals ==> s.reuseImplGoals[ReuseKey(goal)].resolvesTo in s.instantiations
    ensures r.Some? <==> ReuseKey(goal) in s.reuseImplGoals
  {
    if ReuseKey(goal) in s.reuseImplGoals then
      var goalName := s.reuseImplGoals[ReuseKey(goal)].resolvesTo;
      var insts := s.instantiations[goal.goal.resolvesTo := s.instantiations[goalName]];
      Some(SolverState(implGoals, s.normGoals, s.eqGoals, s.matched, s.clauses, insts, s.provenGoals,
                       s.reuseImplGoals, map[]))
    else None
  }

  /**
   * A reused proof adds no goal, records no application and leaves the caches as they
   * were; the goal's slot now names the instantiation the cached slot names, and every
   * other slot keeps its own.
   */
  lemma ReuseFacts(s: SolverState, goal: RecImplGoalChain, implGoals: seq<RecImplGoalChain>)
    requires ReuseKey(goal) in s.reuseImplGoals && s.reuseImplGoals[ReuseKey(goal)].resolvesTo in s.instantiations
    ensures var r := TryReuseExistingProof(s, goal, implGoals).value;
      && r.implGoals == implGoals && r.eqGoals == s.eqGoals && r.normGoals == s.normGoals
      && r.matched == s.matched && r.clauses == s.clauses
      && r.provenGoals == s.provenGoals && r.reuseImplGoals == s.reuseImplGoals
      && r.reuseNormGoals == map[]
      && r.instantiations.Keys == s.instantiations.Keys + {goal.goal.resolvesTo}
      && r.instantiations[goal.goal.resolvesTo] == s.instantiations[s.reuseImplGoals[ReuseKey(goal)].resolvesTo]
      && (forall k :: k in s.instantiations && k != goal.goal.resolvesTo ==> r.instantiations[k] == s.instantiations[k])
  {
  }

  /** The eq goals of a fresh expansion before normalisation: late goals, associated constraints, bindings. */
  function FreshEqGoals(subs: TermMatch, goal: RecImplGoalChain, p: BuildParams): seq<EqGoals.EqGoal> {
    subs.lateGoals + AssocTraitGoals(goal.goal, p.assocEntries) + BindingGoals(p.bindingEntries)
  }

  /** The solver state a fresh expansion of the clause builds. */
  function Expansion(s: SolverState, subs: TermMatch, varMap: VarMap, clause: Clause, goal: RecImplGoalChain,
                     hoist: Normalizer, p: BuildParams): SolverState
    requires (clause.ImplClause? || clause.AssocTyClause?) && BindsAll(clause, subs, varMap)
  {
    var values := ParamValues(clause, subs, varMap);
    var inst := NewInstantiation(clause, subs, varMap, p.goalSeed);
    var implGoals := RemoveFirst(s.implGoals, goal) + Requirements(clause, values, goal, inst.constraints, |p.parents|);
    var hoisted := hoist(s.normGoals, FreshEqGoals(subs, goal, p), Some(goal.chain), goal.depth);
    SolverState(implGoals, hoisted.0, hoisted.1, s.matched, s.clauses,
                if clause.ImplClause? then s.instantiations[goal.goal.resolvesTo := inst] else s.instantiations,
                Record(s.provenGoals, goal.chain, ProvenGoals.ProvenGoal(clause, values)),
                s.reuseImplGoals[ReuseKey(goal) := ProvenGoals.ReuseImplGoal(goal.goal.target, goal.goal.traitTerm,
                                                                             goal.goal.resolvesTo)],
                map[])
  }

  /** The clause is expanded afresh: the cycle check and the depth bound pass and no cached proof applies. */
  ghost predicate Expands(s: SolverState, subs: TermMatch, varMap: VarMap, clause: Clause, goal: RecImplGoalChain,
                          env: Env, p: BuildParams)
    requires BuildReady(s, subs, varMap, clause, goal, p)
  {
    && !Cycles(p.parents, goal.chain, s.provenGoals, clause, ParamValues(clause, subs, varMap), env.contains)
    && goal.depth <= env.maxRecursion
    && !(clause.ImplClause? && ReuseKey(goal) in s.reuseImplGoals)
  }

  /** What `BuildCandidate` returns, given the runtime's choices. */
  ghost function BuildOutcome(s: SolverState, subs: TermMatch, varMap: VarMap, clause: Clause, goal: RecImplGoalChain,
                              env: Env, p: BuildParams): Option<SolverState>
    requires BuildReady(s, subs, varMap, clause, goal, p)
  {
    if Cycles(p.parents, goal.chain, s.provenGoals, clause, ParamValues(clause, subs, varMap), env.contains) then None
    else if goal.depth > env.maxRecursion then None
    else if clause.ImplClause? && ReuseKey(goal) in s.reuseImplGoals then
      TryReuseExistingProof(s, goal, RemoveFirst(s.implGoals, goal))
    else Some(Expansion(s, subs, varMap, clause, goal, env.hoist, p))
  }

  /** `BuildCandidate` */
  method BuildCandidate(s: SolverState, subs: TermMatch, varMap: VarMap, clause: Clause, goal: RecImplGoalChain,
                        env: Env, arena: ProofChainArena, goalSeed: NameSeed)
    returns (r: Option<SolverState>, ghost p: BuildParams)
    requires arena.Valid() && goal.chain < |arena.parents|
    requires goalSeed.Valid() && goalSeed.prefix == "$g"
    requires (clause.ImplClause? || clause.AssocTyClause?) && DistinctTyParams(clause) && BindsAll(clause, subs, varMap)
    requires ProvenKeys(s.provenGoals)
    requires clause.ImplClause? && ReuseKey(goal) in s.reuseImplGoals ==>
               s.reuseImplGoals[ReuseKey(goal)].resolvesTo in s.instantiations
    modifies arena, goalSeed
    ensures p.parents == old(arena.parents) && p.goalSeed == old(goalSeed.value)
    ensures BuildReady(s, subs, varMap, clause, goal, p) && r == BuildOutcome(s, subs, varMap, clause, goal, env, p)
    ensures arena.Valid() && goalSeed.Valid()
    ensures Expands(s, subs, varMap, clause, goal, env, p) ==>
      && EntriesOf(p.assocEntries, goal.goal.assoc) && EntriesOf(p.bindingEntries, subs.substitutions)
      && arena.parents == old(arena.parents) + ChildNodes(clause, goal)
      && goalSeed.value == old(goalSeed.value) + SlotCount(clause)
    ensures !Expands(s, subs, varMap, clause, goal, env, p) ==>
      arena.parents == old(arena.parents) && goalSeed.value == old(goalSeed.value)
  {
    p := BuildParams(arena.parents, goalSeed.value, [], []);
    var implGoals := RemoveFirst(s.implGoals, goal);
    var normGoals := s.normGoals;

    // infinite recursion
    var ok, provenGoals := TryAddProvenImplGoal(arena, goal.chain, s.provenGoals, clause, subs, varMap, env.contains);
    if !ok {
      return None, p;
    }

    // possibly infinite recursion
    if goal.depth > env.maxRecursion {
      return None, p;
    }

    if clause.ImplClause? {
      var existing := TryReuseExistingProof(s, goal, implGoals);
      if existing.Some? {
        return existing, p;
      }
    }

    var eqGoals := subs.lateGoals;
    ghost var assocEntries, bindingEntries;
    eqGoals, assocEntries := AddAssocTraitGoals(eqGoals, goal.goal);
    var instantiations, inst := AddNewInstantiation(s.instantiations, subs, varMap, clause, goal, goalSeed);
    eqGoals, bindingEntries := AddSubstitutionsAsEqGoals(subs, eqGoals);
    implGoals := AddRequirementsFromInstantiation(subs, varMap, clause, goal, inst, implGoals, arena);
    var hoisted := env.hoist(normGoals, eqGoals, Some(goal.chain), goal.depth);
    normGoals, eqGoals := hoisted.0, hoisted.1;
    var reuse := s.reuseImplGoals[ReuseKey(goal) := ProvenGoals.ReuseImplGoal(goal.goal.target, goal.goal.traitTerm,
                                                                               goal.goal.resolvesTo)];
    p := p.(assocEntries := assocEntries, bindingEntries := bindingEntries);
    r := Some(SolverState(implGoals, normGoals, eqGoals, s.matched, s.clauses, instantiations, provenGoals, reuse, map[]));
  }

  /** What a built candidate is: rejected by the cycle check or the depth bound, a reuse, or a fresh expansion. */
  lemma BuildOutcomeCases(s: SolverState, subs: TermMatch, varMap: VarMap, clause: Clause, goal: RecImplGoalChain,
                          env: Env, p: BuildParams)
    requires BuildReady(s, subs, varMap, clause, goal, p)
    ensures BuildOutcome(s, subs, varMap, clause, goal, env, p).None? <==>
      Cycles(p.parents, goal.chain, s.provenGoals, clause, ParamValues(clause, subs, varMap), env.contains)
      || goal.depth > env.maxRecursion
    ensures Expands(s, subs, varMap, clause, goal, env, p) ==>
      BuildOutcome(s, subs, varMap, clause, goal, env, p) == Some(Expansion(s, subs, varMap, clause, goal, env.hoist, p))
  {
  }

  // ------------------------------------------------------------------ what an expansion does

  /** Appending nodes leaves the chain of an existing node as it was. */
  lemma {:induction false} ChainExtend(parents: seq<Option<nat>>, ext: seq<Option<nat>>, id: nat)
    requires ValidParents(parents) && ValidParents(parents + ext) && id < |parents|
    ensures Chain(parents + ext, id) == Chain(parents, id)
    decreases |ext|
  {
    if ext == [] {
      assert parents + ext == parents;
    } else {
      var init := ext[..|ext| - 1];
      assert parents + ext == (parents + init) + [ext[|ext| - 1]];
      assert ValidParents(parents + init) by {
        forall i | 0 <= i < |parents + init| && (parents + init)[i].Some? ensures (parents + init)[i].value < i {
          assert (parents + init)[i] == (parents + ext)[i];
        }
      }
      ChainAppend(parents + init, ext[|ext| - 1], id);
      ChainExtend(parents, init, id);
    }
  }

  /** The nodes an expansion creates are valid children of the goal's node. */
  lemma ChildNodesValid(parents: seq<Option<nat>>, clause: Clause, goal: RecImplGoalChain)
    requires ValidParents(parents) && goal.chain < |parents|
    ensures ValidParents(parents + ChildNodes(clause, goal))
  {
    var all := parents + ChildNodes(clause, goal);
    forall i | 0 <= i < |all| && all[i].Some? ensures all[i].value < i {
      if i >= |parents| {
        assert all[i] == Some(goal.chain);
      } else {
        assert all[i] == parents[i];
      }
    }
  }

  /**
   * The sub-goals of an ImplClause: one per constraint, filling the given slots in
   * order, each on its own new node and one level deeper than the goal.
   */
  lemma RequirementsShape(clause: Clause, values: map<int, Term>, goal: RecImplGoalChain, slots: seq<string>,
                          firstNode: nat)
    requires clause.ImplClause? ==> |slots| >= |clause.constraints|
    ensures var reqs := Requirements(clause, values, goal, slots, firstNode);
      && |reqs| == (if clause.ImplClause? then |clause.constraints| else 0)
      && (forall k :: 0 <= k < |reqs| ==>
            && reqs[k].goal == ConstraintGoal(clause.constraints[k], values, slots[k])
            && reqs[k].depth == goal.depth + 1 && reqs[k].chain == firstNode + k)
  {
  }

  /** The `k`-th node an expansion creates is a child of the goal's node. */
  lemma ChildNodeParent(parents: seq<Option<nat>>, clause: Clause, goal: RecImplGoalChain, k: nat)
    requires k < |ChildNodes(clause, goal)|
    ensures (parents + ChildNodes(clause, goal))[|parents| + k] == Some(goal.chain)
  {
  }

  /**
   * An expansion discharges the goal and adds its sub-goals: the pending impl goals are
   * the old ones, less one copy of the goal, plus the requirements of the clause, whose
   * slots are the instantiation's fresh `$g` names.
   */
  lemma ExpansionGoals(s: SolverState, subs: TermMatch, varMap: VarMap, clause: Clause, goal: RecImplGoalChain,
                       hoist: Normalizer, p: BuildParams)
    requires (clause.ImplClause? || clause.AssocTyClause?) && BindsAll(clause, subs, varMap)
    requires goal in s.implGoals
    ensures var inst := NewInstantiation(clause, subs, varMap, p.goalSeed);
      && inst.constraints == Names("$g", p.goalSeed, SlotCount(clause))
      && multiset(Expansion(s, subs, varMap, clause, goal, hoist, p).implGoals)
           == multiset(s.implGoals) - multiset{goal}
              + multiset(Requirements(clause, ParamValues(clause, subs, varMap), goal, inst.constraints, |p.parents|))
  {
    var inst := NewInstantiation(clause, subs, varMap, p.goalSeed);
    var rest := RemoveFirst(s.implGoals, goal);
    var reqs := Requirements(clause, ParamValues(clause, subs, varMap), goal, inst.constraints, |p.parents|);
    assert Expansion(s, subs, varMap, clause, goal, hoist, p).implGoals == rest + reqs;
    assert multiset(rest + reqs) == multiset(rest) + multiset(reqs);
  }

  /**
   * What an expansion records: for an ImplClause, the goal's slot names an
   * instantiation of the clause with its parameter values in order; the application is
   * recorded on the goal's node; the goal's `(Target, Trait)` is cached under its slot.
   */
  lemma ExpansionRecords(s: SolverState, subs: TermMatch, varMap: VarMap, clause: Clause, goal: RecImplGoalChain,
                         hoist: Normalizer, p: BuildParams)
    requires (clause.ImplClause? || clause.AssocTyClause?) && BindsAll(clause, subs, varMap)
    ensures var c := Expansion(s, subs, varMap, clause, goal, hoist, p);
      && (clause.ImplClause? ==>
            && goal.goal.resolvesTo in c.instantiations
            && c.instantiations[goal.goal.resolvesTo].implName == clause.name
            && |c.instantiations[goal.goal.resolvesTo].vars| == |TyParams(clause)|
            && (forall i :: 0 <= i < |TyParams(clause)| ==>
                  c.instantiations[goal.goal.resolvesTo].vars[i] == ParamValues(clause, subs, varMap)[TyParams(clause)[i]])
            && |c.instantiations[goal.goal.resolvesTo].constraints| == |clause.constraints|)
      && (clause.AssocTyClause? ==> c.instantiations == s.instantiations)
      && goal.chain in c.provenGoals
      && ProvenGoals.ProvenGoal(clause, ParamValues(clause, subs, varMap)) in c.provenGoals[goal.chain]
      && ReuseKey(goal) in c.reuseImplGoals
      && c.reuseImplGoals[ReuseKey(goal)].resolvesTo == goal.goal.resolvesTo
      && c.clauses == s.clauses && c.matched == s.matched
  {
    var c := Expansion(s, subs, varMap, clause, goal, hoist, p);
    var pg := ProvenGoals.ProvenGoal(clause, ParamValues(clause, subs, varMap));
    assert c.provenGoals[goal.chain][|c.provenGoals[goal.chain]| - 1] == pg;
  }

  /**
   * The cycle check's promise: once a clause is applied on a node, applying it again
   * with the same arguments on any node created beneath it is refused, as long as
   * `Contains` holds of a term and itself.
   */
  lemma ExpansionBlocksRepeat(s: SolverState, subs: TermMatch, varMap: VarMap, clause: Clause, goal: RecImplGoalChain,
                              hoist: Normalizer, p: BuildParams, contains: (Term, Term) -> bool, k: nat)
    requires (clause.ImplClause? || clause.AssocTyClause?) && BindsAll(clause, subs, varMap)
    requires ValidParents(p.parents) && goal.chain < |p.parents|
    requires forall t :: contains(t, t)
    requires k < |ChildNodes(clause, goal)|
    ensures ValidParents(p.parents + ChildNodes(clause, goal))
    ensures Cycles(p.parents + ChildNodes(clause, goal), |p.parents| + k,
                   Expansion(s, subs, varMap, clause, goal, hoist, p).provenGoals, clause,
                   ParamValues(clause, subs, varMap), contains)
  {
    var parents' := p.parents + ChildNodes(clause, goal);
    var args := ParamValues(clause, subs, varMap);
    ChildNodesValid(p.parents, clause, goal);
    var child := |p.parents| + k;
    assert parents'[child] == Some(goal.chain);
    assert goal.chain in Chain(parents', child);
    var proven := Expansion(s, subs, varMap, clause, goal, hoist, p).provenGoals;
    assert proven == Record(s.provenGoals, goal.chain, ProvenGoals.ProvenGoal(clause, args));
    RecordRepeats(s.provenGoals, goal.chain, clause, args, contains);
    CyclesAt(parents', child, goal.chain, proven, clause, args, contains);
  }

  /** An application just recorded on a node is repeated there by itself. */
  lemma RecordRepeats(proven: map<nat, seq<ProvenGoals.ProvenGoal>>, node: nat, clause: Clause, args: map<int, Term>,
                      contains: (Term, Term) -> bool)
    requires forall t :: contains(t, t)
    ensures RepeatedOn(Record(proven, node, ProvenGoals.ProvenGoal(clause, args)), node, clause, args, contains)
  {
    var list := Record(proven, node, ProvenGoals.ProvenGoal(clause, args))[node];
    assert Repeats(list, |list| - 1, clause, args, contains);
  }

  /** A repeat on an ancestor of a node, or on the node itself, is a cycle there. */
  lemma CyclesAt(parents: seq<Option<nat>>, node: nat, j: nat, proven: map<nat, seq<ProvenGoals.ProvenGoal>>,
                 clause: Clause, args: map<int, Term>, contains: (Term, Term) -> bool)
    requires ValidParents(parents) && node < |parents|
    requires j in Chain(parents, node) && RepeatedOn(proven, j, clause, args, contains)
    ensures Cycles(parents, node, proven, clause, args, contains)
  {
  }

  /** The sub-goals of an expansion sit on the nodes it creates. */
  lemma RequirementsBelow(clause: Clause, values: map<int, Term>, goal: RecImplGoalChain, slots: seq<string>,
                          firstNode: nat)
    requires clause.ImplClause? ==> |slots| >= |clause.constraints|
    ensures GoalsBelow(Requirements(clause, values, goal, slots, firstNode),
                       firstNode + (if clause.ImplClause? then |clause.constraints| else 0))
  {
  }

  /** Two lists of goals below `n` make one. */
  lemma AppendBelow(a: seq<RecImplGoalChain>, b: seq<RecImplGoalChain>, n: nat)
    requires GoalsBelow(a, n) && GoalsBelow(b, n)
    ensures GoalsBelow(a + b, n)
  {
    forall i | 0 <= i < |a + b| ensures (a + b)[i].chain < n {
      if i >= |a| {
        assert (a + b)[i] == b[i - |a|];
      }
    }
  }

  /** A cache entry for a goal with an IrAlias target, or one whose slot was filled, keeps `ReuseResolved`. */
  lemma CacheResolved(s: SolverState, key: (Term, Term), entry: ProvenGoals.ReuseImplGoal,
                      insts: map<string, Instantiations.Instatiation>)
    requires ReuseResolved(s) && s.instantiations.Keys <= insts.Keys
    requires !key.0.IrAlias? ==> entry.resolvesTo in insts
    ensures ReuseResolved(s.(instantiations := insts, reuseImplGoals := s.reuseImplGoals[key := entry]))
  {
  }

  /**
   * An expansion keeps the invariants of the search: recorded arguments are keyed by
   * type parameters, cached proofs of ordinary targets name known slots, and every
   * node in use exists.
   */
  lemma ExpansionConsistent(s: SolverState, subs: TermMatch, varMap: VarMap, clause: Clause, goal: RecImplGoalChain,
                            hoist: Normalizer, p: BuildParams)
    requires (clause.ImplClause? || clause.AssocTyClause?) && BindsAll(clause, subs, varMap)
    requires Eligible(goal.goal, clause)
    requires Consistent(s, |p.parents|) && goal in s.implGoals
    ensures Consistent(Expansion(s, subs, varMap, clause, goal, hoist, p), |p.parents| + |ChildNodes(clause, goal)|)
  {
    var n0 := |p.parents|;
    var n := n0 + |ChildNodes(clause, goal)|;
    var args := ParamValues(clause, subs, varMap);
    var inst := NewInstantiation(clause, subs, varMap, p.goalSeed);
    var c := Expansion(s, subs, varMap, clause, goal, hoist, p);
    // recorded arguments
    RecordKeepsKeys(s.provenGoals, goal.chain, ProvenGoals.ProvenGoal(clause, args));
    // cached proofs
    var insts := if clause.ImplClause? then s.instantiations[goal.goal.resolvesTo := inst] else s.instantiations;
    var entry := ProvenGoals.ReuseImplGoal(goal.goal.target, goal.goal.traitTerm, goal.goal.resolvesTo);
    CacheResolved(s, ReuseKey(goal), entry, insts);
    // nodes
    var rest := RemoveFirst(s.implGoals, goal);
    var reqs := Requirements(clause, args, goal, inst.constraints, n0);
    assert GoalsBelow(s.implGoals, n);
    RemoveFirstBelow(s.implGoals, goal, n);
    RequirementsBelow(clause, args, goal, inst.constraints, n0);
    AppendBelow(rest, reqs, n);
    assert c.implGoals == rest + reqs;
    assert goal.chain < n0 by {
      assert s.implGoals[IndexOf(s.implGoals, goal)] == goal;
    }
  }

  /** Reusing a cached proof keeps the invariants of the search. */
  lemma ReuseConsistent(s: SolverState, goal: RecImplGoalChain, n: nat)
    requires Consistent(s, n) && ReuseKey(goal) in s.reuseImplGoals && !goal.goal.target.IrAlias?
    ensures Consistent(TryReuseExistingProof(s, goal, RemoveFirst(s.implGoals, goal)).value, n)
  {
    ReuseFacts(s, goal, RemoveFirst(s.implGoals, goal));
    RemoveFirstBelow(s.implGoals, goal, n);
  }

  // ------------------------------------------------------------------ candidate generation

  /**
   * The clauses `GetCandidates` tries for a goal: an AssocTyClause of the same alias
   * name when the target is an IrAlias, and every ImplClause otherwise.
   */
  predicate Eligible(goal: ImplGoals.ImplGoal, clause: Clause) {
    if goal.target.IrAlias? then clause.AssocTyClause? && clause.aliasName == goal.target.name
    else clause.ImplClause?
  }

  /** The indices, below `n`, of the clauses tried for the goal, in clause order. */
  function Eligibles(clauses: seq<Clause>, goal: ImplGoals.ImplGoal, n: nat): (r: seq<nat>)
    requires n <= |clauses|
    ensures |r| <= n
  {
    if n == 0 then []
    else Eligibles(clauses, goal, n - 1) + (if Eligible(goal, clauses[n - 1]) then [n - 1] else [])
  }

  /** Exactly the eligible clauses below `n` are tried, each once and in clause order. */
  lemma {:induction false} EligiblesExact(clauses: seq<Clause>, goal: ImplGoals.ImplGoal, n: nat)
    requires n <= |clauses|
    ensures forall k :: 0 <= k < |Eligibles(clauses, goal, n)| ==>
      Eligibles(clauses, goal, n)[k] < n && Eligible(goal, clauses[Eligibles(clauses, goal, n)[k]])
    ensures forall k, l :: 0 <= k < l < |Eligibles(clauses, goal, n)| ==>
      Eligibles(clauses, goal, n)[k] < Eligibles(clauses, goal, n)[l]
    ensures forall j :: 0 <= j < n && Eligible(goal, clauses[j]) ==> j in Eligibles(clauses, goal, n)
  {
    if n > 0 {
      EligiblesExact(clauses, goal, n - 1);
      var prev := Eligibles(clauses, goal, n - 1);
      var r := Eligibles(clauses, goal, n);
      assert r[..|prev|] == prev;
      forall j | 0 <= j < n && Eligible(goal, clauses[j]) ensures j in r {
        if j < n - 1 {
          var k :| 0 <= k < |prev| && prev[k] == j;
          assert r[k] == j;
        } else {
          assert r[|r| - 1] == j;
        }
      }
    }
  }

  /**
   * `Replace<BoundVar>(b => newVars[b])` finds every bound variable of the clause's
   * head among its type parameters, and `ToDictionary` finds no parameter twice.
   */
  predicate WellFormed(clause: Clause) {
    && DistinctTyParams(clause)
    && (clause.ImplClause? ==> BoundVars(clause.target) + BoundVars(clause.traitTerm) <= TyParamSet(clause))
    && (clause.AssocTyClause? ==> BoundVars(clause.traitTerm) + BoundVars(clause.constraint) <= TyParamSet(clause))
    && (clause.AliasImplClause? ==> BoundVars(clause.target) + BoundVars(clause.traitTerm) <= TyParamSet(clause))
  }

  /** `Replace<BoundVar>(b => newVars[b])` with fresh variables. */
  function Freshen(t: Term, varMap: VarMap): Term {
    SubstituteBound(t, map b | b in varMap :: FreeVar(varMap[b]))
  }

  /** The freshened pair of the clause matched against a goal: trait and constraint of an AssocTyClause, else target and trait. */
  function ClauseHead(clause: Clause, varMap: VarMap): (Term, Term) {
    if clause.AssocTyClause? then (Freshen(clause.traitTerm, varMap), Freshen(clause.constraint, varMap))
    else if clause.ImplClause? || clause.AliasImplClause? then (Freshen(clause.target, varMap), Freshen(clause.traitTerm, varMap))
    else (App("S", []), App("S", []))
  }

  /** The goal's side of the match: the IrAlias's trait and the goal's trait, or target and trait. */
  function GoalHead(goal: ImplGoals.ImplGoal): (Term, Term) {
    if goal.target.IrAlias? then (goal.target.traitTerm, goal.traitTerm) else (goal.target, goal.traitTerm)
  }

  /** `Term.TryMatch(new App("S", [a, b]), new App("S", [c, d]))`, with the corrected unifier. */
  function HeadMatch(clause: Clause, varMap: VarMap, goal: ImplGoals.ImplGoal): Option<TermMatch> {
    var ch := ClauseHead(clause, varMap);
    var gh := GoalHead(goal);
    Unifier.MatchResult(App("S", [ch.0, ch.1]), App("S", [gh.0, gh.1]), Unifier.Corrected)
  }

  /** The choices the runtime makes while one clause is tried: the fresh variables, then those of `BuildCandidate`. */
  datatype AttemptParams = AttemptParams(varMap: VarMap, build: BuildParams)

  /** What trying a clause needs. */
  ghost predicate AttemptReady(s: SolverState, goal: RecImplGoalChain, clause: Clause, a: AttemptParams) {
    && ValidParents(a.build.parents) && goal.chain < |a.build.parents|
    && Eligible(goal.goal, clause) && DistinctTyParams(clause)
    && ProvenKeys(s.provenGoals) && ReuseResolved(s)
  }

  /** The candidate one clause yields: none when the heads do not match or leave a parameter unbound. */
  ghost function Attempt(s: SolverState, goal: RecImplGoalChain, clause: Clause, env: Env, a: AttemptParams)
    : Option<SolverState>
    requires AttemptReady(s, goal, clause, a)
  {
    var varMap := a.varMap;
    match HeadMatch(clause, varMap, goal.goal)
    case None => None
    case Some(subs) =>
      if BindsAll(clause, subs, varMap) then BuildOutcome(s, subs, varMap, clause, goal, env, a.build) else None
  }

  /**
   * A candidate comes from a clause whose freshened head the corrected matcher unifies
   * with the goal, once the postponed alias equations of the match hold.
   */
  lemma AttemptUnifies(s: SolverState, goal: RecImplGoalChain, clause: Clause, env: Env, a: AttemptParams)
    requires AttemptReady(s, goal, clause, a) && Attempt(s, goal, clause, env, a).Some?
    ensures HeadMatch(clause, a.varMap, goal.goal).Some?
    ensures var m := HeadMatch(clause, a.varMap, goal.goal).value;
      var ch := ClauseHead(clause, a.varMap);
      (forall i :: 0 <= i < |m.lateGoals| ==> m.lateGoals[i].left == m.lateGoals[i].right) ==>
        Substitute(ch.0, m.substitutions) == Substitute(GoalHead(goal.goal).0, m.substitutions)
        && Substitute(ch.1, m.substitutions) == Substitute(GoalHead(goal.goal).1, m.substitutions)
  {
    var varMap := a.varMap;
    var m := HeadMatch(clause, varMap, goal.goal).value;
    var ch := ClauseHead(clause, varMap);
    var gh := GoalHead(goal.goal);
    if forall i :: 0 <= i < |m.lateGoals| ==> m.lateGoals[i].left == m.lateGoals[i].right {
      UnifierFacts.MatchSound(App("S", [ch.0, ch.1]), App("S", [gh.0, gh.1]), m);
      SubstituteShape(App("S", [ch.0, ch.1]), m.substitutions);
      SubstituteShape(App("S", [gh.0, gh.1]), m.substitutions);
      assert SubstituteArgs([ch.0, ch.1], m.substitutions) == SubstituteArgs([gh.0, gh.1], m.substitutions);
      assert SubstituteArgs([ch.0, ch.1], m.substitutions)[0] == Substitute(ch.0, m.substitutions);
      assert SubstituteArgs([ch.0, ch.1], m.substitutions)[1] == Substitute(ch.1, m.substitutions);
    }
  }

  /** `TryMatch` then `BuildCandidate` for one clause of `GetCandidates`. */
  method TryClause(s: SolverState, goal: RecImplGoalChain, clause: Clause, env: Env, arena: ProofChainArena,
                   varSeed: NameSeed, goalSeed: NameSeed)
    returns (r: Option<SolverState>, ghost a: AttemptParams)
    requires arena.Valid() && goal.chain < |arena.parents|
    requires varSeed.Valid() && varSeed.prefix == "?" && goalSeed.Valid() && goalSeed.prefix == "$g"
    requires Eligible(goal.goal, clause) && WellFormed(clause)
    requires ProvenKeys(s.provenGoals) && ReuseResolved(s)
    modifies arena, varSeed, goalSeed
    ensures a.varMap == FreshVarMap(TyParams(clause), old(varSeed.value)) && a.build.parents == old(arena.parents) && a.build.goalSeed == old(goalSeed.value)
    ensures AttemptReady(s, goal, clause, a) && r == Attempt(s, goal, clause, env, a)
    ensures arena.Valid() && varSeed.Valid() && goalSeed.Valid()
    ensures old(arena.parents) <= arena.parents
    ensures varSeed.value == old(varSeed.value) + |TyParams(clause)| && goalSeed.value >= old(goalSeed.value)
  {
    var varMap := FreshVars(TyParams(clause), varSeed);
    var ch := ClauseHead(clause, varMap);
    var gh := GoalHead(goal.goal);
    var subs := TermMatching.TryMatch(App("S", [ch.0, ch.1]), App("S", [gh.0, gh.1]), Unifier.Corrected);
    a := AttemptParams(varMap, BuildParams(arena.parents, goalSeed.value, [], []));
    if subs.None? || !BindsAll(clause, subs.value, varMap) {
      return None, a;
    }
    ghost var p;
    r, p := BuildCandidate(s, subs.value, varMap, clause, goal, env, arena, goalSeed);
    a := AttemptParams(varMap, p);
  }

  /** The values of the `Some`s, in order. */
  function Somes<T>(xs: seq<Option<T>>): (r: seq<T>)
    ensures |r| <= |xs|
  {
    if xs == [] then []
    else Somes(xs[..|xs| - 1]) + (if xs[|xs| - 1].Some? then [xs[|xs| - 1].value] else [])
  }

  /** One more outcome adds its value, if any, at the end. */
  lemma SomesSnoc<T>(xs: seq<Option<T>>, x: Option<T>)
    ensures Somes(xs + [x]) == Somes(xs) + (if x.Some? then [x.value] else [])
  {
    assert (xs + [x])[..|xs|] == xs;
  }

  /** Every value kept comes from a `Some`, and every `Some` is kept. */
  lemma {:induction false} SomesKeep<T>(xs: seq<Option<T>>)
    ensures forall i :: 0 <= i < |Somes(xs)| ==> Some(Somes(xs)[i]) in xs
    ensures forall i :: 0 <= i < |xs| && xs[i].Some? ==> xs[i].value in Somes(xs)
  {
    if xs != [] {
      var init := xs[..|xs| - 1];
      SomesKeep(init);
      assert xs == init + [xs[|xs| - 1]];
      forall i | 0 <= i < |Somes(xs)| ensures Some(Somes(xs)[i]) in xs {
        if i < |Somes(init)| {
          assert Somes(xs)[i] == Somes(init)[i];
        }
      }
      forall i | 0 <= i < |xs| && xs[i].Some? ensures xs[i].value in Somes(xs) {
        if i < |init| {
          assert xs[i] == init[i];
        }
      }
    }
  }

  /** Outcome `k` is what trying clause `tried[k]` with the choices `params[k]` yields. */
  ghost predicate Tries(s: SolverState, goal: RecImplGoalChain, env: Env, tried: seq<nat>, params: seq<AttemptParams>,
                        outcomes: seq<Option<SolverState>>)
  {
    && |params| == |tried| && |outcomes| == |tried|
    && forall k :: 0 <= k < |tried| ==>
         && tried[k] < |s.clauses| && AttemptReady(s, goal, s.clauses[tried[k]], params[k])
         && outcomes[k] == Attempt(s, goal, s.clauses[tried[k]], env, params[k])
  }

  /** One more try. */
  lemma TriesSnoc(s: SolverState, goal: RecImplGoalChain, env: Env, tried: seq<nat>, params: seq<AttemptParams>,
                  outcomes: seq<Option<SolverState>>, i: nat, a: AttemptParams, r: Option<SolverState>)
    requires Tries(s, goal, env, tried, params, outcomes)
    requires i < |s.clauses| && AttemptReady(s, goal, s.clauses[i], a) && r == Attempt(s, goal, s.clauses[i], env, a)
    ensures Tries(s, goal, env, tried + [i], params + [a], outcomes + [r])
  {
  }

  /** One turn of the `foreach` of `GetCandidates`: clause `i` is tried when it is eligible. */
  method TryNext(s: SolverState, goal: RecImplGoalChain, env: Env, arena: ProofChainArena,
                 varSeed: NameSeed, goalSeed: NameSeed, i: nat, ghost tried: seq<nat>, ghost params: seq<AttemptParams>,
                 results: seq<Option<SolverState>>)
    returns (ghost tried': seq<nat>, ghost params': seq<AttemptParams>, results': seq<Option<SolverState>>)
    requires arena.Valid() && goal.chain < |arena.parents|
    requires varSeed.Valid() && varSeed.prefix == "?" && goalSeed.Valid() && goalSeed.prefix == "$g"
    requires i < |s.clauses| && (Eligible(goal.goal, s.clauses[i]) ==> WellFormed(s.clauses[i]))
    requires ProvenKeys(s.provenGoals) && ReuseResolved(s)
    requires tried == Eligibles(s.clauses, goal.goal, i) && Tries(s, goal, env, tried, params, results)
    modifies arena, varSeed, goalSeed
    ensures tried' == Eligibles(s.clauses, goal.goal, i + 1) && Tries(s, goal, env, tried', params', results')
    ensures arena.Valid() && varSeed.Valid() && goalSeed.Valid() && old(arena.parents) <= arena.parents
  {
    tried', params', results' := tried, params, results;
    var clause := s.clauses[i];
    if Eligible(goal.goal, clause) {
      var r;
      ghost var a;
      r, a := TryClause(s, goal, clause, env, arena, varSeed, goalSeed);
      TriesSnoc(s, goal, env, tried, params, results, i, a, r);
      tried', params', results' := tried + [i], params + [a], results + [r];
    }
  }

  /**
   * `GetCandidates`: every eligible clause is tried in clause order, and the
   * candidates are what the tries yield, in the same order.
   */
  method GetCandidates(s: SolverState, goal: RecImplGoalChain, env: Env, arena: ProofChainArena,
                       varSeed: NameSeed, goalSeed: NameSeed)
    returns (cands: seq<SolverState>, ghost tried: seq<nat>, ghost params: seq<AttemptParams>,
             ghost outcomes: seq<Option<SolverState>>)
    requires arena.Valid() && goal.chain < |arena.parents|
    requires varSeed.Valid() && varSeed.prefix == "?" && goalSeed.Valid() && goalSeed.prefix == "$g"
    requires forall i :: 0 <= i < |s.clauses| && Eligible(goal.goal, s.clauses[i]) ==> WellFormed(s.clauses[i])
    requires ProvenKeys(s.provenGoals) && ReuseResolved(s)
    modifies arena, varSeed, goalSeed
    ensures tried == Eligibles(s.clauses, goal.goal, |s.clauses|)
    ensures Tries(s, goal, env, tried, params, outcomes)
    ensures cands == Somes(outcomes)
    ensures arena.Valid() && varSeed.Valid() && goalSeed.Valid() && old(arena.parents) <= arena.parents
  {
    var results: seq<Option<SolverState>> := [];
    tried, params := [], [];
    for i := 0 to |s.clauses|
      invariant arena.Valid() && goal.chain < |arena.parents| && old(arena.parents) <= arena.parents
      invariant varSeed.Valid() && varSeed.prefix == "?" && goalSeed.Valid() && goalSeed.prefix == "$g"
      invariant tried == Eligibles(s.clauses, goal.goal, i)
      invariant Tries(s, goal, env, tried, params, results)
    {
      tried, params, results := TryNext(s, goal, env, arena, varSeed, goalSeed, i, tried, params, results);
    }
    outcomes := results;
    cands := Somes(results);
  }
}

/**
 * What a `Solver` of the current engine carries from one step of the search to the
 * next: the pending impl, norm and eq goals, the bindings found so far, the clauses,
 * the instantiation table, the clause applications recorded per proof-chain node for
 * the cycle check, and the two reuse caches.  A candidate solver is built as a new
 * value; the shared iteration counter is not part of the value.
 */
module SolverStates {
  import opened Wrappers
  import opened Terms
  import opened TermMatches
  import opened Clauses
  import opened ProofChains
  import ImplGoals
  import NormGoals
  import ProvenGoals
  import Instantiations
  import EqGoals

  /** `RecImplGoalChain(Goal, Chain, RecursionDepth)`: a pending impl goal with its proof-chain node and depth. */
  datatype RecImplGoalChain = RecImplGoalChain(goal: ImplGoals.ImplGoal, chain: nat, depth: int)

  /** `RecNormGoalChain(Goal, Chain, RecursionDepth)` */
  datatype RecNormGoalChain = RecNormGoalChain(goal: NormGoals.NormGoal, chain: nat, depth: int)

  datatype SolverState = SolverState(
    implGoals: seq<RecImplGoalChain>,
    normGoals: seq<RecNormGoalChain>,
    eqGoals: seq<EqGoals.EqGoal>,
    matched: TermMatch,
    clauses: seq<Clause>,
    instantiations: map<string, Instantiations.Instatiation>,
    provenGoals: map<nat, seq<ProvenGoals.ProvenGoal>>,
    reuseImplGoals: map<(Term, Term), ProvenGoals.ReuseImplGoal>,
    reuseNormGoals: map<Term, Term>)

  /**
   * What a candidate generator yields: a live solver, or `new Solver { _infRec = true }`,
   * which holds nothing else.
   */
  datatype Candidate = Live(state: SolverState) | InfRec

  /**
   * `CreateNormalizationGoals(normGoals, eqGoals, chain, depth)`, which is not part of
   * this model: the norm-goal and eq-goal lists it leaves behind.
   */
  type Normalizer = (seq<RecNormGoalChain>, seq<EqGoals.EqGoal>, Option<nat>, int)
                    -> (seq<RecNormGoalChain>, seq<EqGoals.EqGoal>)

  /** `Dictionary<BoundVar, FreeVar>`: the name of the fresh variable of each type parameter. */
  type VarMap = map<int, string>

  /**
   * `TryAddProvenGoal(chain, provenGoals, clause, substitutions, varMap, isNormalizing)`,
   * which is not part of this model: given the proof-chain nodes, whether the
   * application passes its cycle check, and the recorded applications afterwards.
   */
  type ProvenAdder = (seq<Option<nat>>, nat, map<nat, seq<ProvenGoals.ProvenGoal>>, Clause, TermMatch, VarMap)
                     -> (bool, map<nat, seq<ProvenGoals.ProvenGoal>>)

  /**
   * What the solver files take from code that is not part of this model: the
   * `MaxRecursion` bound, `Term.Contains` (used by the cycle check),
   * `CreateNormalizationGoals` and `TryAddProvenGoal`.
   */
  datatype Env = Env(maxRecursion: int, contains: (Term, Term) -> bool, hoist: Normalizer, addProven: ProvenAdder)

  /** The first index holding `x`. */
  function IndexOf<T(==)>(s: seq<T>, x: T): (i: nat)
    requires x in s
    ensures i < |s| && s[i] == x && x !in s[..i]
  {
    if s[0] == x then 0
    else
      var i := 1 + IndexOf(s[1..], x);
      assert s[..i] == [s[0]] + s[1..][..i - 1];
      i
  }

  /** `List.Remove(item)`: the first element equal to `x` goes, the others stay in order. */
  function RemoveFirst<T(==)>(s: seq<T>, x: T): (r: seq<T>)
    ensures x in s ==> multiset(r) == multiset(s) - multiset{x} && |r| == |s| - 1
    ensures x !in s ==> r == s
  {
    if x in s then
      var i := IndexOf(s, x);
      assert s == s[..i] + [s[i]] + s[i + 1..];
      s[..i] + s[i + 1..]
    else s
  }

  /** `foreach` over a dictionary: every entry once, in an order the runtime picks. */
  ghost predicate EntriesOf<K, V>(e: seq<(K, V)>, m: map<K, V>) {
    && (forall i, j :: 0 <= i < j < |e| ==> e[i].0 != e[j].0)
    && (forall i :: 0 <= i < |e| ==> e[i].0 in m && m[e[i].0] == e[i].1)
    && (forall k :: k in m ==> exists i :: 0 <= i < |e| && e[i].0 == k)
  }

  /** The type parameters of a clause as a set. */
  function TyParamSet(c: Clause): set<int> {
    set p | p in TyParams(c)
  }

  /** The arguments recorded for a clause application are keyed by exactly the clause's type parameters. */
  ghost predicate ProvenKeys(proven: map<nat, seq<ProvenGoals.ProvenGoal>>) {
    forall j, i :: j in proven && 0 <= i < |proven[j]| ==> proven[j][i].args.Keys == TyParamSet(proven[j][i].clause)
  }

  /** The reuse key of an impl goal. */
  function ReuseKey(g: RecImplGoalChain): (Term, Term) {
    (g.goal.target, g.goal.traitTerm)
  }

  /** A cached proof of a target that is no IrAlias names a slot the instantiation table holds. */
  ghost predicate ReuseResolved(s: SolverState) {
    forall key :: key in s.reuseImplGoals && !key.0.IrAlias? ==> s.reuseImplGoals[key].resolvesTo in s.instantiations
  }

  /** Every impl goal of the list sits on one of the first `n` proof-chain nodes. */
  ghost predicate GoalsBelow(goals: seq<RecImplGoalChain>, n: nat) {
    forall i :: 0 <= i < |goals| ==> goals[i].chain < n
  }

  /**
   * Every proof-chain node of a pending impl goal, and every node with recorded
   * applications, is one of the first `n` nodes.
   */
  ghost predicate NodesBelow(s: SolverState, n: nat) {
    && GoalsBelow(s.implGoals, n)
    && (forall j :: j in s.provenGoals ==> j < n)
  }

  /** Removing a goal keeps the rest on the nodes they were on. */
  lemma RemoveFirstBelow(goals: seq<RecImplGoalChain>, g: RecImplGoalChain, n: nat)
    requires GoalsBelow(goals, n)
    ensures GoalsBelow(RemoveFirst(goals, g), n)
  {
    if g in goals {
      var i := IndexOf(goals, g);
      var r := RemoveFirst(goals, g);
      assert r == goals[..i] + goals[i + 1..];
      forall k | 0 <= k < |r| ensures r[k].chain < n {
        if k < i {
          assert r[k] == goals[k];
        } else {
          assert r[k] == goals[k + 1];
        }
      }
    }
  }

  /** What every solver state of a search keeps, with `n` proof-chain nodes created so far. */
  ghost predicate Consistent(s: SolverState, n: nat) {
    ProvenKeys(s.provenGoals) && ReuseResolved(s) && NodesBelow(s, n)
  }

  /** `provenGoals[node].Add(pg)`, creating the list when the node has none. */
  function Record(proven: map<nat, seq<ProvenGoals.ProvenGoal>>, node: nat, pg: ProvenGoals.ProvenGoal)
    : (r: map<nat, seq<ProvenGoals.ProvenGoal>>)
    ensures r.Keys == proven.Keys + {node}
    ensures forall j :: j in proven && j != node ==> r[j] == proven[j]
    ensures |r[node]| >= 1 && r[node][|r[node]| - 1] == pg
    ensures node in proven ==> r[node][..|r[node]| - 1] == proven[node]
    ensures node !in proven ==> r[node] == [pg]
  {
    proven[node := (if node in proven then proven[node] else []) + [pg]]
  }

  /** Recording an application keyed by its clause's type parameters keeps `ProvenKeys`. */
  lemma RecordKeepsKeys(proven: map<nat, seq<ProvenGoals.ProvenGoal>>, node: nat, pg: ProvenGoals.ProvenGoal)
    requires ProvenKeys(proven) && pg.args.Keys == TyParamSet(pg.clause)
    ensures ProvenKeys(Record(proven, node, pg))
  {
    var r: map<nat, seq<ProvenGoals.ProvenGoal>> := Record(proven, node, pg);
    forall j: nat, i: int | j in r && 0 <= i < |r[j]| ensures r[j][i].args.Keys == TyParamSet(r[j][i].clause) {
      if j == node && i < |r[j]| - 1 {
        assert r[j][i] == proven[j][i];
      }
    }
  }
}

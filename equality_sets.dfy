/**
 * `TermMatch.ToEqualitySet` and `TermMatch.ToRelatedSet`: for every variable of a
 * match, the set of variables it is tied to.  The C# code keeps one `HashSet` per
 * variable and unites them in place; here the dictionary of sets is a map value that
 * each step rebuilds.
 */
module EqualitySets {
  import opened Terms
  import opened TermFacts
  import opened Substitution
  import opened TermMatches

  type VarSets = map<string, set<string>>

  /** Each variable is in its own set, and the sets are classes: a member's set is the same set. */
  ghost predicate Classes(res: VarSets) {
    (forall x :: x in res ==> x in res[x]) &&
    (forall x, y :: x in res && y in res[x] ==> y in res && res[y] == res[x])
  }

  /** `p` leads from `x` to `y`, each step a link of `g` in one direction or the other. */
  ghost predicate PathFrom(g: Graph, x: string, p: seq<string>, y: string)
    decreases |p|
  {
    if p == [] then x == y
    else (Link(g, x, p[0]) || Link(g, p[0], x)) && PathFrom(g, p[0], p[1..], y)
  }

  ghost predicate Connected(g: Graph, x: string, y: string) {
    exists p :: PathFrom(g, x, p, y)
  }

  /** Every set holds only variables connected to its owner. */
  ghost predicate Exact(res: VarSets, g: Graph) {
    forall x, y :: x in res && y in res[x] ==> Connected(g, x, y)
  }

  /**
   * The relation a builder unites along: `?x = ?y` ties `x` to `y` in `ToEqualitySet`;
   * `?x = t` ties `x` to every free variable of `t` in `ToRelatedSet`.
   */
  datatype Graph = Graph(m: Bindings, related: bool)

  predicate Link(g: Graph, x: string, y: string) {
    x in g.m && if g.related then y in FreeVars(g.m[x]) else g.m[x] == FreeVar(y)
  }

  /** All free variables of the values of `m`. */
  function ValueVars(m: Bindings): set<string> {
    set x, y | x in m && y in FreeVars(m[x]) :: y
  }

  lemma ConnectedSelf(g: Graph, x: string)
    ensures Connected(g, x, x)
  {
    assert PathFrom(g, x, [], x);
  }

  lemma ConnectedLink(g: Graph, x: string, y: string)
    requires Link(g, x, y)
    ensures Connected(g, x, y) && Connected(g, y, x)
  {
    assert PathFrom(g, y, [], y);
    assert PathFrom(g, x, [y], y);
    assert PathFrom(g, x, [], x);
    assert PathFrom(g, y, [x], x);
  }

  lemma {:induction false} PathAppend(g: Graph, x: string, p: seq<string>, y: string, q: seq<string>, z: string)
    requires PathFrom(g, x, p, y) && PathFrom(g, y, q, z)
    ensures PathFrom(g, x, p + q, z)
    decreases |p|
  {
    if p == [] {
      assert p + q == q;
    } else {
      PathAppend(g, p[0], p[1..], y, q, z);
      var r := p + q;
      assert r != [] && r[0] == p[0] && r[1..] == p[1..] + q;
    }
  }

  lemma {:induction false} PathReversed(g: Graph, x: string, p: seq<string>, y: string)
    requires PathFrom(g, x, p, y)
    ensures Connected(g, y, x)
    decreases |p|
  {
    if p == [] {
      ConnectedSelf(g, x);
    } else {
      PathReversed(g, p[0], p[1..], y);
      var q :| PathFrom(g, y, q, p[0]);
      assert PathFrom(g, x, [], x);
      assert PathFrom(g, p[0], [x], x);
      PathAppend(g, y, q, p[0], [x], x);
    }
  }

  lemma ConnectedSymmetric(g: Graph, x: string, y: string)
    requires Connected(g, x, y)
    ensures Connected(g, y, x)
  {
    var p :| PathFrom(g, x, p, y);
    PathReversed(g, x, p, y);
  }

  lemma ConnectedTransitive(g: Graph, x: string, y: string, z: string)
    requires Connected(g, x, y) && Connected(g, y, z)
    ensures Connected(g, x, z)
  {
    var p :| PathFrom(g, x, p, y);
    var q :| PathFrom(g, y, q, z);
    PathAppend(g, x, p, y, q, z);
  }

  /**
   * `res[x].Add(x)` when `x` already has a set, `res[x] = {x}` otherwise: under the class
   * invariant only a new variable changes anything.
   */
  method AddSelf(res: VarSets, x: string, ghost g: Graph) returns (r: VarSets)
    requires Classes(res)
    ensures r.Keys == res.Keys + {x}
    ensures forall y :: y in res ==> r[y] == res[y]
    ensures x !in res ==> r[x] == {x}
    ensures Classes(r)
    ensures Exact(res, g) ==> Exact(r, g)
  {
    if x in res {
      assert res[x] + {x} == res[x];
      r := res[x := res[x] + {x}];
      assert r == res;
    } else {
      r := res[x := {x}];
      ConnectedSelf(g, x);
    }
  }

  lemma UnionConnected(res: VarSets, a: string, b: string, g: Graph, x: string, y: string)
    requires Classes(res) && Exact(res, g) && a in res && b in res && Connected(g, a, b)
    requires x in res[a] + res[b] && y in res[a] + res[b]
    ensures Connected(g, x, y)
  {
    var ends := if x in res[a] then a else b;
    var endy := if y in res[a] then a else b;
    ConnectedSymmetric(g, ends, x);
    ConnectedSelf(g, a);
    ConnectedSelf(g, b);
    ConnectedSymmetric(g, a, b);
    assert Connected(g, ends, endy);
    ConnectedTransitive(g, x, ends, endy);
    ConnectedTransitive(g, x, endy, y);
  }

  /**
   * The merge step: `union = res[a] ∪ res[b]`, then `res[v].UnionWith(union)` for every
   * `v` of `union`.  Every member of either class ends up with the united class.
   */
  method Unite(res: VarSets, a: string, b: string, ghost g: Graph) returns (r: VarSets)
    requires Classes(res) && a in res && b in res
    ensures r.Keys == res.Keys
    ensures forall x :: x in r ==> r[x] == if x in res[a] + res[b] then res[a] + res[b] else res[x]
    ensures forall x :: x in res ==> res[x] <= r[x]
    ensures Classes(r)
    ensures Exact(res, g) && Connected(g, a, b) ==> Exact(r, g)
  {
    var union := res[a] + res[b];
    r := res;
    var todo := union;
    while todo != {}
      invariant todo <= union
      invariant r.Keys == res.Keys
      invariant forall x :: x in r ==> r[x] == if x in union - todo then res[x] + union else res[x]
      decreases todo
    {
      var x :| x in todo;
      assert x in res;
      r := r[x := r[x] + union];
      todo := todo - {x};
    }
    UnionIsClass(res, a, b);
    UnitedClasses(res, a, b, r);
    if Exact(res, g) && Connected(g, a, b) {
      UnitedExact(res, a, b, g, r);
    }
  }

  lemma UnionIsClass(res: VarSets, a: string, b: string)
    requires Classes(res) && a in res && b in res
    ensures forall x :: x in res[a] + res[b] ==> x in res && res[x] <= res[a] + res[b]
  {
    forall x | x in res[a] + res[b]
      ensures x in res && res[x] <= res[a] + res[b]
    {
      if x in res[a] { assert res[x] == res[a]; } else { assert res[x] == res[b]; }
    }
  }

  lemma UnitedClasses(res: VarSets, a: string, b: string, r: VarSets)
    requires Classes(res) && a in res && b in res
    requires r.Keys == res.Keys
    requires forall x :: x in r ==> r[x] == if x in res[a] + res[b] then res[a] + res[b] else res[x]
    ensures Classes(r)
  {
  }

  lemma UnitedExact(res: VarSets, a: string, b: string, g: Graph, r: VarSets)
    requires Classes(res) && Exact(res, g) && a in res && b in res && Connected(g, a, b)
    requires r.Keys == res.Keys
    requires forall x :: x in r ==> r[x] == if x in res[a] + res[b] then res[a] + res[b] else res[x]
    ensures Exact(r, g)
  {
    forall x, y | x in r && y in r[x]
      ensures Connected(g, x, y)
    {
      if x in res[a] + res[b] {
        UnionConnected(res, a, b, g, x, y);
      }
    }
  }

  /** Names of the FreeVar nodes that `Descendants<FreeVar>` yields for the values bound to `ks`. */
  function DescendantVars(n: Bindings, ks: set<string>): set<string> {
    set x, d | x in ks && x in n && d in Descendants(n[x], KFreeVar) && d.FreeVar? :: d.name
  }

  lemma DescendantVarsExtend(n: Bindings, ks: set<string>, k: string)
    requires k in n
    ensures DescendantVars(n, ks + {k}) == DescendantVars(n, ks) + VarNames(Descendants(n[k], KFreeVar))
  {
    forall y | y in VarNames(Descendants(n[k], KFreeVar))
      ensures y in DescendantVars(n, ks + {k})
    {
      var d :| d in Descendants(n[k], KFreeVar) && d.FreeVar? && d.name == y;
      assert k in ks + {k};
    }
  }

  /** Names of the FreeVar nodes among `ds`. */
  function VarNames(ds: seq<Term>): set<string> {
    set d | d in ds && d.FreeVar? :: d.name
  }

  lemma VarNamesSnoc(ds: seq<Term>, j: int)
    requires 0 <= j < |ds| && ds[j].FreeVar?
    ensures VarNames(ds[..j + 1]) == VarNames(ds[..j]) + {ds[j].name}
  {
    assert ds[..j + 1] == ds[..j] + [ds[j]];
  }

  /** The sets of `r` are those of `res`, and a singleton for each variable new in `r`. */
  ghost predicate AddsSingletons(res: VarSets, r: VarSets) {
    res.Keys <= r.Keys && forall x :: x in r ==> r[x] == if x in res then res[x] else {x}
  }

  lemma AddsSingletonsKeeps(res: VarSets, r: VarSets, g: Graph)
    requires Classes(res) && AddsSingletons(res, r)
    ensures Classes(r)
    ensures Exact(res, g) ==> Exact(r, g)
  {
    forall x | x in r && x !in res ensures Connected(g, x, x) {
      ConnectedSelf(g, x);
    }
  }

  /** `foreach (var v in ds)`: each FreeVar gets a set containing itself. */
  method AddVars(res: VarSets, ds: seq<Term>) returns (r: VarSets)
    requires forall x :: x in res ==> x in res[x]
    requires forall i :: 0 <= i < |ds| ==> ds[i].FreeVar?
    ensures r.Keys == res.Keys + VarNames(ds)
    ensures AddsSingletons(res, r)
  {
    r := res;
    var j := 0;
    while j < |ds|
      invariant 0 <= j <= |ds|
      invariant r.Keys == res.Keys + VarNames(ds[..j])
      invariant AddsSingletons(res, r)
    {
      VarNamesSnoc(ds, j);
      var v := ds[j].name;
      if v in r {
        r := r[v := r[v] + {v}];
      } else {
        r := r[v := {v}];
      }
      j := j + 1;
    }
    assert ds[..j] == ds;
  }

  /**
   * The second loop of both builders: every FreeVar descendant of every binding value
   * gets a set containing itself.
   */
  method AddDescendantVars(res: VarSets, m: Bindings) returns (r: VarSets)
    requires forall x :: x in res ==> x in res[x]
    ensures r.Keys == res.Keys + DescendantVars(m, m.Keys)
    ensures AddsSingletons(res, r)
  {
    r := res;
    var todo := m.Keys;
    ghost var done: set<string> := {};
    while todo != {}
      invariant done !! todo && done + todo == m.Keys
      invariant r.Keys == res.Keys + DescendantVars(m, done)
      invariant AddsSingletons(res, r)
      decreases todo
    {
      var k :| k in todo;
      var ds := Descendants(m[k], KFreeVar);
      forall i | 0 <= i < |ds| ensures ds[i].FreeVar? {
        assert ds[i] in ds && ds[i].IsKind(KFreeVar);
      }
      ghost var prev := r;
      r := AddVars(r, ds);
      DescendantVarsExtend(m, done, k);
      todo := todo - {k};
      done := done + {k};
    }
  }

  /** Targets of the `?x = ?y` bindings of `n` whose key is in `ks`. */
  function EqTargets(n: Bindings, ks: set<string>): set<string> {
    set x | x in ks && x in n && n[x].FreeVar? :: n[x].name
  }

  lemma EqTargetsExtend(n: Bindings, ks: set<string>, k: string)
    requires k in n
    ensures EqTargets(n, ks + {k}) == EqTargets(n, ks) + (if n[k].FreeVar? then {n[k].name} else {})
  {
  }

  /** The variables `ToEqualitySet` gives sets to are the keys and all value variables. */
  lemma EqualityKeys(n: Bindings)
    ensures EqTargets(n, n.Keys) + DescendantVars(n, n.Keys) == ValueVars(n)
  {
    forall y | y in ValueVars(n)
      ensures y in EqTargets(n, n.Keys) + DescendantVars(n, n.Keys)
    {
      var x :| x in n && y in FreeVars(n[x]);
      FreeVarsViaDescendants(n[x], y);
      if !n[x].FreeVar? {
        var d := FreeVar(y);
        assert d in Descendants(n[x], KFreeVar);
      }
    }
    forall y | y in EqTargets(n, n.Keys)
      ensures y in ValueVars(n)
    {
      var x :| x in n && n[x].FreeVar? && n[x].name == y;
      assert y in FreeVars(n[x]);
    }
    DescendantVarsAreValueVars(n);
  }

  lemma DescendantVarsAreValueVars(n: Bindings)
    ensures DescendantVars(n, n.Keys) <= ValueVars(n)
  {
    forall y | y in DescendantVars(n, n.Keys)
      ensures y in ValueVars(n)
    {
      var x, d :| x in n && d in Descendants(n[x], KFreeVar) && d.FreeVar? && d.name == y;
      assert !n[x].FreeVar?;
      assert d == FreeVar(y);
      FreeVarsViaDescendants(n[x], y);
    }
  }

  /** One pass of the first loop of `ToEqualitySet`, for the binding `?k = value`. */
  method AddEquality(res: VarSets, k: string, value: Term, ghost g: Graph)
    returns (r: VarSets)
    requires Classes(res) && Exact(res, g)
    requires value.FreeVar? ==> Link(g, k, value.name)
    ensures r.Keys == res.Keys + {k} + (if value.FreeVar? then {value.name} else {})
    ensures forall x :: x in res ==> res[x] <= r[x]
    ensures value.FreeVar? ==> value.name in r[k]
    ensures Classes(r) && Exact(r, g)
  {
    r := AddSelf(res, k, g);
    if value.FreeVar? {
      var v := value.name;
      r := AddSelf(r, v, g);
      ConnectedLink(g, k, v);
      r := Unite(r, v, k, g);
    }
  }

  /**
   * `ToEqualitySet`: for each variable of the match, the set of variables it is equal
   * to through chains of `?x = ?y` bindings, itself included.  The keys are exactly the
   * bound variables and the variables of the bound values; `?x = ?y` puts `?x` and `?y`
   * in one set; and no set holds a variable that is not chained to its owner.
   */
  method ToEqualitySet(m: TermMatch) returns (res: VarSets)
    ensures res.Keys == m.substitutions.Keys + ValueVars(m.substitutions)
    ensures Classes(res)
    ensures forall x :: x in m.substitutions && m.substitutions[x].FreeVar? ==>
      m.substitutions[x].name in res[x]
    ensures Exact(res, Graph(m.substitutions, false))
  {
    var subs := m.substitutions;
    var first := EqualityClasses(subs);
    res := AddDescendantVars(first, subs);
    AddsSingletonsKeeps(first, res, Graph(subs, false));
    EqualityKeys(subs);
  }

  /** The first loop of `ToEqualitySet`. */
  method EqualityClasses(subs: Bindings) returns (res: VarSets)
    ensures res.Keys == subs.Keys + EqTargets(subs, subs.Keys)
    ensures Classes(res) && Exact(res, Graph(subs, false))
    ensures forall x :: x in subs && subs[x].FreeVar? ==> subs[x].name in res[x]
  {
    ghost var g := Graph(subs, false);
    res := map[];
    var todo := subs.Keys;
    ghost var done: set<string> := {};
    while todo != {}
      invariant done !! todo && done + todo == subs.Keys
      invariant res.Keys == done + EqTargets(subs, done)
      invariant Classes(res) && Exact(res, g)
      invariant forall x :: x in done && subs[x].FreeVar? ==> subs[x].name in res[x]
      decreases todo
    {
      var k :| k in todo;
      res := AddEquality(res, k, subs[k], g);
      EqTargetsExtend(subs, done, k);
      todo := todo - {k};
      done := done + {k};
    }
  }

  /** Variables of the values of `n` bound to keys in `ks`. */
  function RelTargets(n: Bindings, ks: set<string>): set<string> {
    set x, y | x in ks && x in n && y in FreeVars(n[x]) :: y
  }

  lemma RelTargetsAll(n: Bindings)
    ensures RelTargets(n, n.Keys) == ValueVars(n)
  {
  }

  lemma RelTargetsExtend(n: Bindings, ks: set<string>, k: string)
    requires k in n
    ensures RelTargets(n, ks + {k}) == RelTargets(n, ks) + FreeVars(n[k])
  {
    forall y | y in FreeVars(n[k]) ensures y in RelTargets(n, ks + {k}) {
      assert k in ks + {k};
    }
  }

  /** The FreeVars of `DescendantsAndSelf<FreeVar>` are the free variables. */
  lemma VarNamesOfDescendantsAndSelf(t: Term)
    ensures VarNames(DescendantsAndSelf(t, KFreeVar)) == FreeVars(t)
  {
    forall y | y in FreeVars(t) ensures y in VarNames(DescendantsAndSelf(t, KFreeVar)) {
      FreeVarsViaDescendants(t, y);
      var d := FreeVar(y);
      assert d in DescendantsAndSelf(t, KFreeVar);
    }
    forall y | y in VarNames(DescendantsAndSelf(t, KFreeVar)) ensures y in FreeVars(t) {
      var d :| d in DescendantsAndSelf(t, KFreeVar) && d.FreeVar? && d.name == y;
      assert d == FreeVar(y);
      FreeVarsViaDescendants(t, y);
    }
  }

  lemma RelatedDescendants(subs: Bindings, k: string, ds: seq<Term>)
    requires k in subs && ds == DescendantsAndSelf(subs[k], KFreeVar)
    ensures forall i :: 0 <= i < |ds| ==> ds[i].FreeVar? && Link(Graph(subs, true), k, ds[i].name)
  {
    forall i | 0 <= i < |ds|
      ensures ds[i].FreeVar? && Link(Graph(subs, true), k, ds[i].name)
    {
      var d := ds[i];
      assert d in ds && d.IsKind(KFreeVar);
      FreeVarsViaDescendants(subs[k], d.name);
    }
  }

  /** One pass of the inner loop of `ToRelatedSet`: `?v` gets a set, then joins `?k`'s. */
  method UniteOne(res: VarSets, k: string, v: string, ghost g: Graph)
    returns (r: VarSets)
    requires Classes(res) && Exact(res, g) && k in res && Link(g, k, v)
    ensures r.Keys == res.Keys + {v}
    ensures forall x :: x in res ==> res[x] <= r[x]
    ensures v in r[k]
    ensures Classes(r) && Exact(r, g)
  {
    r := AddSelf(res, v, g);
    ghost var mid := r;
    assert v in mid[v] && k in mid[k];
    ConnectedLink(g, k, v);
    r := Unite(r, v, k, g);
    assert r[k] == mid[v] + mid[k];
  }

  /** The inner loop of `ToRelatedSet`: `?k` is united with each free variable in `ds`. */
  method UniteWithAll(res: VarSets, k: string, ds: seq<Term>, ghost g: Graph)
    returns (r: VarSets)
    requires Classes(res) && Exact(res, g) && k in res
    requires forall i :: 0 <= i < |ds| ==> ds[i].FreeVar? && Link(g, k, ds[i].name)
    ensures r.Keys == res.Keys + VarNames(ds)
    ensures forall x :: x in res ==> res[x] <= r[x]
    ensures VarNames(ds) <= r[k]
    ensures Classes(r) && Exact(r, g)
  {
    r := res;
    var j := 0;
    while j < |ds|
      invariant 0 <= j <= |ds|
      invariant r.Keys == res.Keys + VarNames(ds[..j])
      invariant forall x :: x in res ==> res[x] <= r[x]
      invariant VarNames(ds[..j]) <= r[k]
      invariant Classes(r) && Exact(r, g)
    {
      VarNamesSnoc(ds, j);
      r := UniteOne(r, k, ds[j].name, g);
      j := j + 1;
    }
    assert ds[..j] == ds;
  }

  /** One pass of the first loop of `ToRelatedSet`, for the binding of `?k`. */
  method AddRelated(res: VarSets, subs: Bindings, k: string, ghost g: Graph)
    returns (r: VarSets)
    requires k in subs && g == Graph(subs, true)
    requires Classes(res) && Exact(res, g)
    ensures r.Keys == res.Keys + {k} + FreeVars(subs[k])
    ensures forall x :: x in res ==> res[x] <= r[x]
    ensures FreeVars(subs[k]) <= r[k]
    ensures Classes(r) && Exact(r, g)
  {
    r := AddSelf(res, k, g);
    var ds := DescendantsAndSelf(subs[k], KFreeVar);
    RelatedDescendants(subs, k, ds);
    ghost var mid := r;
    r := UniteWithAll(r, k, ds, g);
    VarNamesOfDescendantsAndSelf(subs[k]);
    forall y | y in FreeVars(subs[k]) ensures y in r[k] {
      FreeVarsViaDescendants(subs[k], y);
      assert FreeVar(y) in ds;
    }
    assert forall x :: x in res ==> res[x] <= mid[x];
  }

  /**
   * `ToRelatedSet`: for each variable of the match, the set of variables related to it
   * through chains of bindings, where `?x = t` relates `?x` to every free variable of
   * `t`.  Same key set as `ToEqualitySet`; `?x = t` puts every variable of `t` in `?x`'s
   * set; and no set holds a variable that is not chained to its owner.
   */
  method ToRelatedSet(m: TermMatch) returns (res: VarSets)
    ensures res.Keys == m.substitutions.Keys + ValueVars(m.substitutions)
    ensures Classes(res)
    ensures forall x :: x in m.substitutions ==> FreeVars(m.substitutions[x]) <= res[x]
    ensures Exact(res, Graph(m.substitutions, true))
  {
    var subs := m.substitutions;
    var first := RelatedClasses(subs);
    res := AddDescendantVars(first, subs);
    AddsSingletonsKeeps(first, res, Graph(subs, true));
    DescendantVarsAreValueVars(subs);
  }

  /** The first loop of `ToRelatedSet`. */
  method RelatedClasses(subs: Bindings) returns (res: VarSets)
    ensures res.Keys == subs.Keys + ValueVars(subs)
    ensures Classes(res) && Exact(res, Graph(subs, true))
    ensures forall x :: x in subs ==> FreeVars(subs[x]) <= res[x]
  {
    ghost var g := Graph(subs, true);
    res := map[];
    var todo := subs.Keys;
    ghost var done: set<string> := {};
    while todo != {}
      invariant done !! todo && done + todo == subs.Keys
      invariant res.Keys == done + RelTargets(subs, done)
      invariant Classes(res) && Exact(res, g)
      invariant forall x :: x in done ==> FreeVars(subs[x]) <= res[x]
      decreases todo
    {
      var k :| k in todo;
      res := AddRelated(res, subs, k, g);
      RelTargetsExtend(subs, done, k);
      todo := todo - {k};
      done := done + {k};
    }
    RelTargetsAll(subs);
  }
}

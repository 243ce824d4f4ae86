/**
 * Worked runs of the worklist unifier: the cases of `MatchTests`, and the pair that
 * shows the right-hand rewrite as written losing an equation.
 */
module UnifierExamples {
  import opened Wrappers
  import opened Terms
  import opened Substitution
  import opened TermMatches
  import opened Unifier
  import EqGoals

  const Str := App("str", [])
  const Bool := App("bool", [])

  function List(t: Term): Term {
    App("List", [t])
  }

  /** `Match(str, str)` and `Match(List<str>, List<str>)` succeed without bindings; `Match(str, bool)` throws. */
  lemma MatchTestsGround(v: Variant)
    ensures MatchResult(Str, Str, v) == Some(TermMatch(map[], []))
    ensures MatchResult(List(Str), List(Str), v) == Some(TermMatch(map[], []))
    ensures Outcome(Str, Bool, true, v) == Thrown
  {
    var w := Worklist(map[], [], [(Str, Str)]);
    assert Init(List(Str), List(Str)).stack[..0] == [];
    assert Zip([Str], [Str]) == [(Str, Str)];
    assert [] + [(Str, Str)] == [(Str, Str)];
    assert Step(Init(List(Str), List(Str)), v) == Some(w);
    assert Zip(Str.args, Str.args) == [];
    assert w.stack[..0] + [] == [];
    assert Step(w, v) == Some(Worklist(map[], [], []));
  }

  /** `Match(List<?a>, List<str>)` binds `?a := str`. */
  lemma MatchTestBindsVariable(v: Variant)
    ensures MatchResult(List(FreeVar("a")), List(Str), v) == Some(TermMatch(map["a" := Str], []))
  {
    var w1 := Worklist(map[], [], [(FreeVar("a"), Str)]);
    var w2 := Worklist(map["a" := Str], [], []);
    DecomposeList(v);
    BindA(v);
    assert Solve(w2, v) == Some((map["a" := Str], []));
    assert Solve(w1, v) == Solve(w2, v);
    assert EqGoals.SubstituteAll([], map["a" := Str]) == [];
  }

  lemma DecomposeList(v: Variant)
    ensures Step(Init(List(FreeVar("a")), List(Str)), v) == Some(Worklist(map[], [], [(FreeVar("a"), Str)]))
  {
    assert Init(List(FreeVar("a")), List(Str)).stack[..0] == [];
    assert Zip([FreeVar("a")], [Str]) == [(FreeVar("a"), Str)];
    assert [] + [(FreeVar("a"), Str)] == [(FreeVar("a"), Str)];
  }

  lemma BindA(v: Variant)
    ensures Step(Worklist(map[], [], [(FreeVar("a"), Str)]), v) == Some(Worklist(map["a" := Str], [], []))
  {
    var w1 := Worklist(map[], [], [(FreeVar("a"), Str)]);
    assert w1.stack[..0] == [] && SubstPairs([], map["a" := Str]) == [];
    assert !Any(Str, KFreeVar, IsVar("a"));
    assert SubstituteValues(map[], "a", Str) == map[];
  }

  const B := App("B", [])
  const Foo := App("Foo", [])
  const X := FreeVar("x")

  /** `S<B, Foo>` against `S<?x, ?x>`: the terms have no unifier. */
  function Left(): Term {
    App("S", [B, Foo])
  }

  function Right(): Term {
    App("S", [X, X])
  }

  /** The first step pushes the argument pairs `(B, ?x)` and `(Foo, ?x)`, whichever the variant. */
  lemma DecomposeS(v: Variant)
    ensures Step(Init(Left(), Right()), v) == Some(Worklist(map[], [], [(B, X), (Foo, X)]))
  {
    assert Init(Left(), Right()).stack[..0] == [];
    assert Zip([B, Foo], [X, X]) == [(B, X), (Foo, X)];
    assert [] + [(B, X), (Foo, X)] == [(B, X), (Foo, X)];
  }

  /** As written, `?x := Foo` is recorded while `(B, ?x)` stays pending unchanged. */
  lemma AsWrittenKeepsVariable()
    ensures Step(Worklist(map[], [], [(B, X), (Foo, X)]), AsWritten) == Some(Worklist(map["x" := Foo], [], [(B, X)]))
  {
    var w1 := Worklist(map[], [], [(B, X), (Foo, X)]);
    assert w1.stack[..1] == [(B, X)];
    assert !Any(Foo, KFreeVar, IsVar("x"));
    assert SubstituteValues(map[], "x", Foo) == map[];
    SubstituteShape(B, map["x" := X]);
    SubstituteShape(X, map["x" := X]);
    assert SubstPairs([(B, X)], map["x" := X]) == [(B, X)];
  }

  /** Then `(B, ?x)` overwrites the binding with `?x := B`. */
  lemma AsWrittenOverwrites()
    ensures Step(Worklist(map["x" := Foo], [], [(B, X)]), AsWritten) == Some(Worklist(map["x" := B], [], []))
  {
    var w2 := Worklist(map["x" := Foo], [], [(B, X)]);
    assert w2.stack[..0] == [] && SubstPairs([], map["x" := X]) == [];
    assert !Any(B, KFreeVar, IsVar("x"));
    SubstituteShape(Foo, map["x" := B]);
    assert SubstituteValues(map["x" := Foo], "x", B) == map["x" := Foo];
    assert map["x" := Foo]["x" := B] == map["x" := B];
  }

  /**
   * As written, the pair `(B, ?x)` stays pending after `?x := Foo` is recorded, and then
   * overwrites it with `?x := B`: the match succeeds with bindings that leave the two
   * sides different.
   */
  lemma AsWrittenLosesEquation()
    ensures MatchResult(Left(), Right(), AsWritten) == Some(TermMatch(map["x" := B], []))
    ensures Substitute(Left(), map["x" := B]) != Substitute(Right(), map["x" := B])
  {
    DecomposeS(AsWritten);
    AsWrittenKeepsVariable();
    AsWrittenOverwrites();
    var w1 := Worklist(map[], [], [(B, X), (Foo, X)]);
    var w2 := Worklist(map["x" := Foo], [], [(B, X)]);
    var w3 := Worklist(map["x" := B], [], []);
    assert Solve(w3, AsWritten) == Some((map["x" := B], []));
    assert Solve(w2, AsWritten) == Solve(w3, AsWritten);
    assert Solve(w1, AsWritten) == Solve(w2, AsWritten);
    assert EqGoals.SubstituteAll([], map["x" := B]) == [];
    SidesDiffer();
  }

  lemma SidesDiffer()
    ensures Substitute(Left(), map["x" := B]) != Substitute(Right(), map["x" := B])
  {
    var l := Substitute(Left(), map["x" := B]);
    SubstituteShape(Left(), map["x" := B]);
    SubstituteShape(Foo, map["x" := B]);
    assert l.args[1] == Foo;
    var r := Substitute(Right(), map["x" := B]);
    SubstituteShape(Right(), map["x" := B]);
    SubstituteShape(X, map["x" := B]);
    assert r.args[1] == B;
  }

  /** With the pending pairs rewritten by the bound value, the same pair is rejected. */
  lemma CorrectedRejects()
    ensures MatchResult(Left(), Right(), Corrected) == None
  {
    DecomposeS(Corrected);
    var w1 := Worklist(map[], [], [(B, X), (Foo, X)]);
    assert w1.stack[..1] == [(B, X)];
    assert !Any(Foo, KFreeVar, IsVar("x"));
    SubstituteShape(B, map["x" := Foo]);
    SubstituteShape(X, map["x" := Foo]);
    assert SubstPairs([(B, X)], map["x" := Foo]) == [(B, Foo)];
    assert SubstituteValues(map[], "x", Foo) == map[];
    var w2 := Worklist(map["x" := Foo], [], [(B, Foo)]);
    assert Step(w1, Corrected) == Some(w2);
    assert Step(w2, Corrected) == None;
  }
}

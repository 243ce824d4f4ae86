/**
 * `Solver.SolverDriver`: the depth-first search over solvers.  The driver keeps a stack
 * of frames; the root frame holds the solver the search started from, and each other
 * frame holds an enumerator over the candidate solvers one step of `InternalRun`
 * produced.  An enumerator is modelled as the sequence of its candidates and the index
 * of the next one `MoveNext` yields.
 */
module SolverDrivers {
  import opened Wrappers
  import opened SolverStates

  /**
   * `SolverDriverFrame` and its records.  `Plain` is a frame of the base record itself,
   * which `Run` does not know how to handle.
   */
  datatype Frame =
    | Plain
    | Success
    | Root(solver: SolverState)
    | Impls(solvers: seq<Candidate>, next: nat)
    | Norms(solvers: seq<Candidate>, next: nat)

  /**
   * `InternalRun`, which is not part of this model: given a solver, the frame it
   * returns (`None` for `null`) and the solver as it leaves it.
   */
  type Runner = SolverState -> (Option<Frame>, SolverState)

  /** One turn of `while (true)`: the stack for the next turn, or what `Run` returns and the stack it leaves. */
  datatype Turn = Continue(stack: seq<Frame>) | Return(result: Option<Candidate>, stack: seq<Frame>)

  /** The first index from `k` on whose candidate is live: the `goto MoveNext` loop. */
  function NextLive(c: seq<Candidate>, k: nat): (j: nat)
    ensures k <= j && (k <= |c| ==> j <= |c|)
    ensures j < |c| ==> c[j].Live?
    ensures forall i :: k <= i < j && i < |c| ==> c[i].InfRec?
    decreases |c| - k
  {
    if k >= |c| || c[k].Live? then k else NextLive(c, k + 1)
  }

  /**
   * After `InternalRun` on a candidate, with the enumerator already advanced in `top`:
   * `null` goes on with the next candidate, a `SuccessFrame` returns the candidate's
   * solver, any other frame is pushed.
   */
  function AfterRun(popped: seq<Frame>, top: Frame, r: (Option<Frame>, SolverState)): Turn {
    match r.0
    case None => Continue(popped + [top])
    case Some(f) => if f.Success? then Return(Some(Live(r.1)), popped + [top]) else Continue(popped + [top] + [f])
  }

  /** The exhausted frame is removed; the search is over when only the root is left. */
  function Pop(popped: seq<Frame>): Turn {
    if |popped| == 1 then Return(None, popped) else Continue(popped)
  }

  function Step(stack: seq<Frame>, run: Runner): Turn {
    if stack == [] then Return(None, stack)
    else
      var n := |stack| - 1;
      var popped := stack[..n];
      match stack[n]
      case Root(s) =>
        var r := run(s);
        if r.0.None? then Return(None, popped + [Root(r.1)])
        else if r.0.value.Success? then Return(Some(Live(r.1)), popped + [Root(r.1)])
        else Continue(popped + [Root(r.1)] + [r.0.value])
      case Impls(c, next) =>
        var j := NextLive(c, next);
        if j < |c| then AfterRun(popped, Impls(c, j + 1), run(c[j].state))
        else Pop(popped)
      case Norms(c, next) =>
        if next < |c| then
          if c[next].InfRec? then Return(Some(InfRec), popped + [Norms(c, next + 1)])
          else AfterRun(popped, Norms(c, next + 1), run(c[next].state))
        else Pop(popped)
      case _ => Return(None, stack)
  }

  /** What `Run` ends with: a solver, `null`, or the fuel of the model spent. */
  datatype Outcome = Found(solver: Candidate) | NotFound | OutOfFuel

  /** `Run()` for at most `fuel` turns, with the stack it leaves. */
  function RunFrom(stack: seq<Frame>, run: Runner, fuel: nat): (Outcome, seq<Frame>)
    decreases fuel
  {
    if fuel == 0 then (OutOfFuel, stack)
    else
      match Step(stack, run)
      case Return(r, st) => (if r.Some? then Found(r.value) else NotFound, st)
      case Continue(st) => RunFrom(st, run, fuel - 1)
  }

  /** `Debug.Assert(newFrame is not RootFrame)`: `InternalRun` never returns a root frame. */
  ghost predicate NoRootFrames(run: Runner) {
    forall s :: run(s).0.Some? ==> !run(s).0.value.Root?
  }

  /** The stack of a driver: the root frame at the bottom and nowhere else. */
  ghost predicate Rooted(stack: seq<Frame>) {
    |stack| >= 1 && stack[0].Root? && forall i :: 1 <= i < |stack| ==> !stack[i].Root?
  }

  /**
   * Every turn keeps the root at the bottom; once a frame sits above it the root is
   * never replaced, so the root solver runs once; and a turn goes on only with a frame
   * above the root.
   */
  lemma StepKeepsRooted(stack: seq<Frame>, run: Runner)
    requires Rooted(stack) && NoRootFrames(run)
    ensures Rooted(Step(stack, run).stack)
    ensures |stack| >= 2 ==> Step(stack, run).stack[0] == stack[0]
    ensures Step(stack, run).Continue? ==> |Step(stack, run).stack| >= 2
  {
    var n := |stack| - 1;
    var t := Step(stack, run);
    if n > 0 {
      assert stack[..n][0] == stack[0];
      match stack[n]
      case Impls(c, next) =>
        var j := NextLive(c, next);
        if j < |c| {
          var r := run(c[j].state);
          assert r.0.Some? ==> !r.0.value.Root?;
        }
      case Norms(c, next) =>
        if next < |c| && c[next].Live? {
          var r := run(c[next].state);
          assert r.0.Some? ==> !r.0.value.Root?;
        }
      case _ =>
    } else {
      var r := run(stack[0].solver);
      assert r.0.Some? ==> !r.0.value.Root?;
    }
  }

  /** Impl candidates that would recurse forever are passed over: the turn is that of the next one. */
  lemma ImplSkipsInfRec(popped: seq<Frame>, c: seq<Candidate>, next: nat, run: Runner)
    requires next < |c| && c[next].InfRec?
    ensures Step(popped + [Impls(c, next)], run) == Step(popped + [Impls(c, next + 1)], run)
  {
    assert (popped + [Impls(c, next)])[..|popped|] == popped;
    assert (popped + [Impls(c, next + 1)])[..|popped|] == popped;
  }

  /** A norm candidate that would recurse forever ends the search with that candidate. */
  lemma NormReturnsInfRec(popped: seq<Frame>, c: seq<Candidate>, next: nat, run: Runner)
    requires next < |c| && c[next].InfRec?
    ensures RunFrom(popped + [Norms(c, next)], run, 1).0 == Found(InfRec)
  {
  }

  /**
   * An impl frame with no live candidate left, or a norm frame with no candidate left,
   * is popped without running anything.
   */
  lemma ExhaustedFramePops(popped: seq<Frame>, f: Frame, run: Runner)
    requires || (f.Impls? && forall i :: f.next <= i < |f.solvers| ==> f.solvers[i].InfRec?)
             || (f.Norms? && f.next >= |f.solvers|)
    ensures Step(popped + [f], run) == Pop(popped)
  {
    assert (popped + [f])[..|popped|] == popped;
    if f.Impls? {
      var j := NextLive(f.solvers, f.next);
      assert j >= |f.solvers|;
    }
  }

  /** A frame of a kind `Run` does not know ends the search with `null` and leaves the stack as it is. */
  lemma UnknownFrameStops(stack: seq<Frame>, run: Runner)
    requires |stack| >= 1 && (stack[|stack| - 1].Plain? || stack[|stack| - 1].Success?)
    ensures Step(stack, run) == Return(None, stack)
  {
  }

  /**
   * A live solver is returned only when `InternalRun` reported a `SuccessFrame` for it,
   * and the solver returned is the one that run left.
   */
  lemma {:induction false} FoundSucceeded(stack: seq<Frame>, run: Runner, fuel: nat)
    requires RunFrom(stack, run, fuel).0.Found? && RunFrom(stack, run, fuel).0.solver.Live?
    ensures exists s :: run(s) == (Some(Success), RunFrom(stack, run, fuel).0.solver.state)
    decreases fuel
  {
    var o := RunFrom(stack, run, fuel).0;
    var t := Step(stack, run);
    if t.Continue? {
      FoundSucceeded(t.stack, run, fuel - 1);
    } else {
      var n := |stack| - 1;
      match stack[n]
      case Root(s) =>
        assert run(s) == (Some(Success), o.solver.state);
      case Impls(c, next) =>
        var j := NextLive(c, next);
        assert run(c[j].state) == (Some(Success), o.solver.state);
      case Norms(c, next) =>
        assert run(c[next].state) == (Some(Success), o.solver.state);
    }
  }

  /** A frame that holds no candidate that recurses forever where `Run` would return it. */
  ghost predicate InfRecFree(f: Frame) {
    f.Norms? ==> forall i :: 0 <= i < |f.solvers| ==> f.solvers[i].Live?
  }

  /** `InternalRun` builds only norm frames whose candidates are all live. */
  ghost predicate RunInfRecFree(run: Runner) {
    forall s :: run(s).0.Some? ==> InfRecFree(run(s).0.value)
  }

  /** Without such a norm frame, the search never returns the marker of infinite recursion. */
  lemma {:induction false} InfRecFromNorms(stack: seq<Frame>, run: Runner, fuel: nat)
    requires (forall i :: 0 <= i < |stack| ==> InfRecFree(stack[i])) && RunInfRecFree(run)
    ensures RunFrom(stack, run, fuel).0 != Found(InfRec)
    decreases fuel
  {
    if fuel > 0 && stack != [] {
      var t := Step(stack, run);
      var n := |stack| - 1;
      assert InfRecFree(stack[n]);
      if t.Continue? {
        forall i | 0 <= i < |t.stack| ensures InfRecFree(t.stack[i]) {
          if i < n {
            assert t.stack[i] == stack[i];
          } else if i > n {
            match stack[n]
            case Root(s) => assert t.stack[i] == run(s).0.value;
            case Impls(c, next) => assert t.stack[i] == run(c[NextLive(c, next)].state).0.value;
            case Norms(c, next) => assert t.stack[i] == run(c[next].state).0.value;
          }
        }
        InfRecFromNorms(t.stack, run, fuel - 1);
      }
    }
  }

  /**
   * Without a result, the search has either come back to the root alone or stopped at
   * a frame of a kind it does not know.
   */
  lemma {:induction false} NotFoundAtRoot(stack: seq<Frame>, run: Runner, fuel: nat)
    requires Rooted(stack) && NoRootFrames(run)
    requires RunFrom(stack, run, fuel).0 == NotFound
    ensures var st := RunFrom(stack, run, fuel).1; |st| >= 1 && (|st| == 1 || st[|st| - 1].Plain? || st[|st| - 1].Success?)
    decreases fuel
  {
    var t := Step(stack, run);
    StepKeepsRooted(stack, run);
    if t.Continue? {
      NotFoundAtRoot(t.stack, run, fuel - 1);
    }
  }

  /** One turn of the loop in `Run`, with the `goto MoveNext` loop of an impl frame. */
  method StepOnce(stack: seq<Frame>, run: Runner) returns (t: Turn)
    ensures t == Step(stack, run)
  {
    if |stack| == 0 {
      return Return(None, stack);
    }
    var n := |stack| - 1;
    var popped := stack[..n];
    match stack[n]
    case Root(s) =>
      var r := run(s);
      if r.0.None? {
        t := Return(None, popped + [Root(r.1)]);
      } else if r.0.value.Success? {
        t := Return(Some(Live(r.1)), popped + [Root(r.1)]);
      } else {
        t := Continue(popped + [Root(r.1)] + [r.0.value]);
      }
    case Impls(c, next) =>
      var j := next;
      while j < |c| && c[j].InfRec?
        invariant next <= j && NextLive(c, j) == NextLive(c, next)
        decreases |c| - j
      {
        j := j + 1;
      }
      if j < |c| {
        t := AfterRun(popped, Impls(c, j + 1), run(c[j].state));
      } else {
        t := Pop(popped);
      }
    case Norms(c, next) =>
      if next < |c| {
        if c[next].InfRec? {
          t := Return(Some(InfRec), popped + [Norms(c, next + 1)]);
        } else {
          t := AfterRun(popped, Norms(c, next + 1), run(c[next].state));
        }
      } else {
        t := Pop(popped);
      }
    case _ =>
      t := Return(None, stack);
  }

  class SolverDriver {
    /** `_solvers`, the stack of frames. */
    var solvers: seq<Frame>

    /** `new SolverDriver(solver)`: the root frame alone. */
    constructor(solver: SolverState)
      ensures solvers == [Root(solver)] && Rooted(solvers)
    {
      solvers := [Root(solver)];
    }

    /** `Run()`, for at most `fuel` turns of its loop. */
    method Run(run: Runner, fuel: nat) returns (r: Outcome)
      modifies this
      ensures (r, solvers) == RunFrom(old(solvers), run, fuel)
    {
      var k: nat := fuel;
      while k > 0
        invariant k <= fuel && RunFrom(solvers, run, k) == RunFrom(old(solvers), run, fuel)
        decreases k
      {
        var t := StepOnce(solvers, run);
        solvers := t.stack;
        if t.Return? {
          return if t.result.Some? then Found(t.result.value) else NotFound;
        }
        k := k - 1;
      }
      r := OutOfFuel;
    }
  }
}

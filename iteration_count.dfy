/**
 * `Solver.IterationCount`: the counter every solver of one search shares (each
 * candidate is built with `new Solver(this._iterations)`, the same object).  The field
 * is a C# `int`, so `++` wraps from `int.MaxValue` to `int.MinValue`.
 */
module IterationCounts {
  const IntMin: int := -0x8000_0000
  const IntMax: int := 0x7fff_ffff

  predicate IsInt32(x: int) {
    IntMin <= x <= IntMax
  }

  /** `x++` on a 32-bit `int`, unchecked. */
  function Inc32(x: int): (r: int)
    requires IsInt32(x)
    ensures IsInt32(r)
  {
    if x == IntMax then IntMin else x + 1
  }

  /** The counter after `k` increments from `x`. */
  function After(x: int, k: nat): (r: int)
    requires IsInt32(x)
    ensures IsInt32(r)
  {
    if k == 0 then x else Inc32(After(x, k - 1))
  }

  /** Below `int.MaxValue`, an increment adds one. */
  lemma Inc32Adds(x: int)
    requires IsInt32(x)
    ensures x < IntMax ==> Inc32(x) == x + 1
    ensures x == IntMax ==> Inc32(x) == IntMin
  {
  }

  /** From zero, `k` increments leave the count at `k` as long as `k` fits in an `int`. */
  lemma {:induction false} AfterFromZero(k: nat)
    requires k <= IntMax
    ensures After(0, k) == k
  {
    if k > 0 {
      AfterFromZero(k - 1);
    }
  }

  /** The `int.MaxValue + 1`-th increment from zero wraps the count to `int.MinValue`. */
  lemma WrapsAtMax()
    ensures After(0, IntMax + 1) == IntMin
  {
    AfterFromZero(IntMax);
  }

  /**
   * With a bound below `int.MaxValue`, `Overflown()` becomes true after `bound + 1`
   * increments from zero and stays true for every further increment that does not wrap.
   */
  lemma {:induction false} OverflownReached(bound: int, k: nat)
    requires 0 <= bound < IntMax && bound + 1 <= k <= IntMax
    ensures After(0, k) > bound
  {
    AfterFromZero(k);
  }

  class IterationCount {
    var iterations: int
    /** `MaxIterations`, which is not part of this model. */
    const maxIterations: int

    ghost predicate Valid()
      reads this
    {
      IsInt32(iterations)
    }

    /** `new IterationCount()`: the field starts at zero. */
    constructor(maxIterations: int)
      ensures Valid() && iterations == 0 && this.maxIterations == maxIterations
    {
      iterations := 0;
      this.maxIterations := maxIterations;
    }

    /** `Increment()`: one more iteration, wrapping as a 32-bit `int` does. */
    method Increment()
      requires Valid()
      modifies this
      ensures Valid() && iterations == Inc32(old(iterations))
    {
      if iterations == IntMax {
        iterations := IntMin;
      } else {
        iterations := iterations + 1;
      }
    }

    /** `Overflown()`: more iterations than `MaxIterations`. */
    function Overflown(): (b: bool)
      reads this
      ensures b <==> iterations > maxIterations
    {
      iterations > maxIterations
    }

    /** `Count` */
    function Count(): (c: int)
      reads this
      ensures c == iterations
    {
      iterations
    }
  }
}

/**
 * The process-wide counters that name fresh things: `FreeVar._seed`, which makes
 * `FreeVar.New()` return `?1`, `?2`, ..., and `Solver._goalSeed`, which names the
 * instantiation slots `$g1`, `$g2`, ....  Each is an object holding the last number
 * handed out; a name is the prefix followed by the number in decimal.
 */
module FreshNames {
  import opened Terms

  function Digit(d: nat): (c: char)
    requires d < 10
    ensures '0' <= c <= '9'
  {
    "0123456789"[d]
  }

  /** `n.ToString()` for a non-negative number: its decimal digits, most significant first. */
  function Decimal(n: nat): (s: string)
    ensures |s| >= 1
    ensures n >= 10 ==> |s| >= 2
    ensures forall i :: 0 <= i < |s| ==> '0' <= s[i] <= '9'
  {
    if n < 10 then [Digit(n)] else Decimal(n / 10) + [Digit(n % 10)]
  }

  /** Different numbers are written differently. */
  lemma {:induction false} DecimalInjective(a: nat, b: nat)
    requires Decimal(a) == Decimal(b)
    ensures a == b
    decreases a
  {
    if a >= 10 && b >= 10 {
      var sa, sb := Decimal(a), Decimal(b);
      assert sa[|sa| - 1] == Digit(a % 10) && sb[|sb| - 1] == Digit(b % 10);
      assert Decimal(a / 10) == sa[..|sa| - 1] == sb[..|sb| - 1] == Decimal(b / 10);
      DecimalInjective(a / 10, b / 10);
    }
  }

  function FreshName(prefix: string, n: nat): string {
    prefix + Decimal(n)
  }

  /** Two numbers give two different names under the same prefix. */
  lemma FreshNamesDistinct(prefix: string, a: nat, b: nat)
    ensures a != b ==> FreshName(prefix, a) != FreshName(prefix, b)
  {
    if FreshName(prefix, a) == FreshName(prefix, b) {
      assert Decimal(a) == FreshName(prefix, a)[|prefix|..];
      assert Decimal(b) == FreshName(prefix, b)[|prefix|..];
      DecimalInjective(a, b);
    }
  }

  /** A static `long` seed and the prefix its names carry. */
  class NameSeed {
    const prefix: string
    var value: nat
    ghost var issued: set<string>

    ghost predicate Valid()
      reads this
    {
      issued == set i: nat | 1 <= i <= value :: FreshName(prefix, i)
    }

    constructor(prefix: string)
      ensures this.prefix == prefix && value == 0 && issued == {}
      ensures Valid()
    {
      this.prefix := prefix;
      value := 0;
      issued := {};
    }

    /** `$"{prefix}{++_seed}"`: the next number, never handed out before. */
    method Next() returns (name: string)
      requires Valid()
      modifies this
      ensures Valid()
      ensures value == old(value) + 1 && name == FreshName(prefix, value)
      ensures name !in old(issued) && issued == old(issued) + {name}
    {
      value := value + 1;
      name := FreshName(prefix, value);
      forall i: nat | 1 <= i < value ensures FreshName(prefix, i) != name {
        FreshNamesDistinct(prefix, i, value);
      }
      issued := issued + {name};
    }
  }

  /** `FreeVar.New()` */
  method NewFreeVar(seed: NameSeed) returns (v: Term)
    requires seed.Valid() && seed.prefix == "?"
    modifies seed
    ensures seed.Valid() && seed.value == old(seed.value) + 1
    ensures v == FreeVar(FreshName("?", seed.value))
    ensures v.name !in old(seed.issued) && seed.issued == old(seed.issued) + {v.name}
  {
    var name := seed.Next();
    v := FreeVar(name);
  }
}

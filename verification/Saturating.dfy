/**
 Go's 64-bit `int` and the saturating arithmetic behind the lambda cost estimate
 (internal/rlm/lambda.go).  Every program variable below has type `Int64`, so
 verification also shows that no intermediate result overflows.
 */
module Saturating {
  const MAX_INT: int := 0x7FFF_FFFF_FFFF_FFFF
  const MIN_INT: int := -0x8000_0000_0000_0000

  type Int64 = x: int | MIN_INT <= x <= MAX_INT

  function Min(a: int, b: int): int { if a < b then a else b }

  function Max(a: int, b: int): int { if a > b then a else b }

  /** b to the power e. */
  function Pow(b: nat, e: nat): nat {
    if e == 0 then 1 else b * Pow(b, e - 1)
  }

  /** 1 + b + ... + b^(d-1): the internal nodes of a full b-ary tree of depth d. */
  function Geometric(b: nat, d: nat): nat {
    if d == 0 then 0 else Geometric(b, d - 1) + Pow(b, d - 1)
  }

  /** The exact value n, cut off at the largest int. */
  function Saturate(n: nat): Int64 {
    if n > MAX_INT then MAX_INT else n
  }

  /** The sum of the positive entries. */
  function SumPositive(values: seq<int>): nat {
    if values == [] then 0
    else SumPositive(values[..|values| - 1]) + Max(0, values[|values| - 1])
  }

  /** The value that 64-bit two's complement arithmetic yields for x. */
  function Wrap(x: int): Int64 {
    var m := (x - MIN_INT) % 0x1_0000_0000_0000_0000;
    m + MIN_INT
  }

  /** Go's integer division: truncation toward zero. */
  function Quotient(a: int, b: int): int
    requires b > 0
  {
    if a >= 0 then a / b else -(-a / b)
  }

  lemma {:induction false} PowMonotone(b: nat, i: nat, j: nat)
    requires b >= 1 && i <= j
    ensures 1 <= Pow(b, i) <= Pow(b, j)
    decreases j
  {
    if j > 0 {
      PowMonotone(b, if i < j then i else j - 1, j - 1);
      ProductAtLeast(b, Pow(b, j - 1));
    }
  }

  lemma ProductAtLeast(b: nat, p: nat)
    requires b >= 1
    ensures b * p >= p
  {}

  lemma {:induction false} PowExceeds(b: nat, e: nat)
    requires b >= 2
    ensures Pow(b, e) > e
  {
    if e > 0 {
      PowExceeds(b, e - 1);
      assert b * Pow(b, e - 1) >= 2 * Pow(b, e - 1);
    }
  }

  lemma {:induction false} GeometricMonotone(b: nat, i: nat, j: nat)
    requires i <= j
    ensures Geometric(b, i) <= Geometric(b, j)
    decreases j - i
  {
    if i < j {
      GeometricMonotone(b, i + 1, j);
    }
  }

  /** leaves = internal * (b - 1) + 1 in a full b-ary tree. */
  lemma {:induction false} LeavesFromInternalNodes(b: nat, d: nat)
    requires b >= 1
    ensures Pow(b, d) == Geometric(b, d) * (b - 1) + 1
  {
    if d > 0 {
      LeavesFromInternalNodes(b, d - 1);
      OneLevelMore(b, Geometric(b, d - 1), Pow(b, d - 1));
    }
  }

  lemma OneLevelMore(b: int, g: int, p: int)
    requires p == g * (b - 1) + 1
    ensures b * p == (g + p) * (b - 1) + 1
  {
    assert (g + p) * (b - 1) == g * (b - 1) + p * (b - 1);
    assert p * (b - 1) == b * p - p;
  }

  /** The root's children: a tree of depth d is one node above b trees of depth d - 1. */
  lemma {:induction false} GeometricUnfold(b: nat, d: nat)
    requires d >= 1
    ensures Geometric(b, d) == 1 + b * Geometric(b, d - 1)
  {
    if d == 1 {
      assert Geometric(b, 1) == Geometric(b, 0) + Pow(b, 0);
    } else {
      GeometricUnfold(b, d - 1);
      var g, p := Geometric(b, d - 2), Pow(b, d - 2);
      assert Pow(b, d - 1) == b * p;
      assert b * Geometric(b, d - 1) == b * (g + p) == b * g + b * p;
    }
  }

  lemma QuotientBound(x: nat, b: nat)
    requires b >= 1
    ensures x > MAX_INT / b <==> x * b > MAX_INT
  {
    var q := MAX_INT / b;
    assert q * b <= MAX_INT < (q + 1) * b;
    if x > q {
      assert x * b >= (q + 1) * b;
    } else {
      assert x * b <= q * b;
    }
  }

  method BoundedPowInt(base: Int64, exp: Int64) returns (result: Int64)
    ensures base >= 1 && exp >= 0 ==> result == Saturate(Pow(base, exp))
    ensures base <= 1 || exp <= 0 ==> result == 1
  {
    if exp <= 0 { return 1; }
    if base <= 1 {
      PowOfOne(exp);
      return 1;
    }
    result := 1;
    for i := 0 to exp
      invariant result == Pow(base, i)
    {
      QuotientBound(result, base);
      assert Pow(base, i + 1) == base * result == result * base;
      if result > MAX_INT / base {
        PowMonotone(base, i + 1, exp);
        return MAX_INT;
      }
      result := result * base;
    }
  }

  lemma {:induction false} PowOfOne(e: nat)
    ensures Pow(1, e) == 1
  {
    if e > 0 { PowOfOne(e - 1); }
  }

  method InternalNodeCount(branchingFactor: Int64, depth: Int64) returns (total: Int64)
    ensures branchingFactor >= 2 && depth >= 0 ==> total == Saturate(Geometric(branchingFactor, depth))
    ensures branchingFactor <= 1 || depth <= 0 ==> total == 0
  {
    if branchingFactor <= 1 || depth <= 0 { return 0; }
    total := 0;
    var level: Int64 := 1;
    for i := 0 to depth
      invariant total == Geometric(branchingFactor, i) && level == Pow(branchingFactor, i)
    {
      GeometricMonotone(branchingFactor, i + 1, depth);
      if total > MAX_INT - level { return MAX_INT; }
      total := total + level;
      if i == depth - 1 { break; }
      QuotientBound(level, branchingFactor);
      if level > MAX_INT / branchingFactor {
        GeometricMonotone(branchingFactor, i + 2, depth);
        assert Pow(branchingFactor, i + 1) == branchingFactor * level;
        return MAX_INT;
      }
      level := level * branchingFactor;
    }
  }

  method SaturatingMulInt(a: Int64, b: Int64) returns (r: Int64)
    ensures r == Saturate(Max(0, a) * Max(0, b))
  {
    if a <= 0 || b <= 0 { return 0; }
    QuotientBound(a, b);
    if a > MAX_INT / b { return MAX_INT; }
    r := a * b;
  }

  method SaturatingAddInt(values: seq<Int64>) returns (total: Int64)
    ensures total == Saturate(SumPositive(values))
  {
    total := 0;
    for i := 0 to |values|
      invariant total == SumPositive(values[..i])
    {
      assert values[..i + 1][..i] == values[..i];
      var value := values[i];
      if value <= 0 { continue; }
      if total > MAX_INT - value {
        SumPositiveMonotone(values, i + 1);
        return MAX_INT;
      }
      total := total + value;
    }
    assert values[..|values|] == values;
  }

  lemma {:induction false} SumPositiveMonotone(values: seq<int>, i: nat)
    requires i <= |values|
    ensures SumPositive(values[..i]) <= SumPositive(values)
    decreases |values| - i
  {
    if i == |values| {
      assert values[..i] == values;
    } else {
      SumPositiveMonotone(values, i + 1);
      assert values[..i + 1][..i] == values[..i];
    }
  }

  /** Saturating a product or a sum of saturated parts loses nothing more than saturating once. */
  lemma SaturateMul(a: nat, b: Int64)
    requires b >= 1
    ensures Saturate(Saturate(a) * b) == Saturate(a * b)
  {
    if a > MAX_INT {
      assert a * b >= a;
      assert Saturate(a) * b >= Saturate(a);
    }
  }

  function ClampInt(v: int, lo: int, hi: int): int {
    if v < lo then lo else if v > hi then hi else v
  }

  /** `(n + d - 1) / d` as 64-bit code computes it, wrap-around included. */
  function CeilDivInt(n: Int64, d: Int64): (r: int)
    ensures d >= 1 && n >= 1 && n + d - 1 <= MAX_INT ==> (r - 1) * d < n <= r * d
  {
    if d <= 0 then n
    else if n <= 0 then 0
    else
      var q := Quotient(Wrap(n + d - 1), d);
      assert n + d - 1 <= MAX_INT ==> Wrap(n + d - 1) == n + d - 1 && q * d <= n + d - 1 < (q + 1) * d;
      q
  }

  /** CeilDivInt is the ceiling of n / d exactly when the sum n + d - 1 stays within an int. */
  lemma CeilDivIsCeilingIffNoOverflow(n: Int64, d: Int64)
    requires n >= 1 && d >= 1
    ensures (CeilDivInt(n, d) - 1) * d < n <= CeilDivInt(n, d) * d <==> n + d - 1 <= MAX_INT
  {
    if n + d - 1 > MAX_INT {
      assert Wrap(n + d - 1) == n + d - 1 - 0x1_0000_0000_0000_0000 < 0;
      assert CeilDivInt(n, d) <= 0;
      NonPositiveProduct(CeilDivInt(n, d), d);
    }
  }

  lemma NonPositiveProduct(r: int, d: nat)
    requires r <= 0
    ensures r * d <= 0
  {}
}

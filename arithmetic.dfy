/** The arithmetic primitives of the library: the unsigned 128-bit word every
    function works on, and the integer square root computed by Newton's method. */
module Arithmetic {

  /** The largest value of Rust's `u128`, 2^128 - 1. */
  const U128_MAX: int := 0xFFFF_FFFF_FFFF_FFFF_FFFF_FFFF_FFFF_FFFF

  /** Rust's `u128`. An arithmetic result outside this range is a proof
      obligation that fails, as a debug build panics instead of wrapping. */
  newtype U128 = x: int | 0 <= x <= U128_MAX

  /** `r` is the integer part of the square root of `n`. */
  predicate IsFloorSqrt(n: nat, r: nat) {
    r * r <= n < (r + 1) * (r + 1)
  }

  lemma SquareMonotonic(a: nat, b: nat)
    requires a <= b
    ensures a * a <= b * b
  {
    assert a * a <= a * b;
  }

  /** A square that stays below `n` has a root no larger than the integer root of `n`. */
  lemma {:induction false} BelowFloorSqrt(n: nat, r: nat, x: nat)
    requires IsFloorSqrt(n, r) && x * x <= n
    ensures x <= r
  {
    if r + 1 <= x {
      SquareMonotonic(r + 1, x);
    }
  }

  /** The integer square root is unique, so any two routines that meet
      IsFloorSqrt agree. */
  lemma {:induction false} FloorSqrtUnique(n: nat, r1: nat, r2: nat)
    requires IsFloorSqrt(n, r1) && IsFloorSqrt(n, r2)
    ensures r1 == r2
  {
    BelowFloorSqrt(n, r1, r2);
    BelowFloorSqrt(n, r2, r1);
  }

  /** For n >= 2 the integer root is strictly below n. */
  lemma {:induction false} FloorSqrtBelow(n: nat, r: nat)
    requires n >= 2 && IsFloorSqrt(n, r)
    ensures r < n
  {
    if r >= 2 {
      assert r * r >= 2 * r;
    }
  }

  /** If s is the integer root of n / 4, the integer root of n is 2s or 2s + 1. */
  lemma HalfRootBracket(n: nat, s: nat)
    requires IsFloorSqrt(n / 4, s)
    ensures (2 * s) * (2 * s) <= n < (2 * s + 2) * (2 * s + 2)
  {
    var q := n / 4;
    assert (2 * s) * (2 * s) == 4 * (s * s);
    assert (2 * s + 2) * (2 * s + 2) == 4 * ((s + 1) * (s + 1));
    assert 4 * (s * s) <= 4 * q;
    assert q + 1 <= (s + 1) * (s + 1);
    assert n < 4 * q + 4;
  }

  /** A reference integer square root, independent of Newton's method: the
      root of n is twice the root of n / 4, plus one if that still fits. */
  function FloorSqrt(n: nat): (r: nat)
    ensures IsFloorSqrt(n, r)
    decreases n
  {
    if n < 4 then
      (if n == 0 then 0 else 1)
    else
      var s := FloorSqrt(n / 4);
      HalfRootBracket(n, s);
      if (2 * s + 1) * (2 * s + 1) <= n then 2 * s + 1 else 2 * s
  }

  /** One Newton step never falls below any root candidate: for x >= 1 and
      r * r <= n, (x + n / x) / 2 >= r. */
  lemma NewtonStepNotBelowRoot(n: nat, x: nat, r: nat)
    requires x >= 1 && r * r <= n
    ensures (x + n / x) / 2 >= r
  {
    var q := n / x;
    QuotientBracket(n, x);
    SquareCompletion(x, r);
    ProductCancel(x, q + 1, 2 * r - x);
  }

  /** Euclidean division: n < x * (n / x + 1). */
  lemma QuotientBracket(n: nat, x: nat)
    requires x >= 1
    ensures n < x * (n / x + 1)
  {
    var q := n / x;
    assert n == x * q + n % x;
    assert x * (q + 1) == x * q + x;
  }

  /** x * (2r - x) never exceeds r * r, since their difference is (r - x)^2. */
  lemma SquareCompletion(x: int, r: int)
    ensures x * (2 * r - x) <= r * r
  {
    assert x * (2 * r - x) == 2 * r * x - x * x;
    assert (r - x) * (r - x) == r * r - 2 * r * x + x * x;
    assert (r - x) * (r - x) >= 0;
  }

  lemma MulMonotonic(a: nat, b: int, c: int)
    requires b <= c
    ensures a * b <= a * c
  {
    assert a * c - a * b == a * (c - b);
  }

  lemma ProductCancel(a: int, b: int, c: int)
    requires a > 0 && a * b > a * c
    ensures b > c
  {
    assert a * b - a * c == a * (b - c);
  }

  /** A Newton step from an iterate above the root lands on an iterate above
      the root again: n < (y + 1) * (y + 1). */
  lemma {:induction false} NewtonStepKeepsBracket(n: nat, x: nat)
    requires x >= 1
    ensures n < ((x + n / x) / 2 + 1) * ((x + n / x) / 2 + 1)
  {
    var r := FloorSqrt(n);
    var y := (x + n / x) / 2;
    NewtonStepNotBelowRoot(n, x, r);
    SquareMonotonic(r + 1, y + 1);
  }

  /** When the step does not decrease, the current iterate squared is at most n. */
  lemma NewtonStopIsBelowRoot(n: nat, x: nat)
    requires x >= 1 && (x + n / x) / 2 >= x
    ensures x * x <= n
  {
    var q := n / x;
    assert q >= x;
    assert x * x <= x * q;
    assert x * q <= n;
  }

  /** The intermediate `x + n / x` of the iteration fits in a u128 while
      1 <= x <= n / 2 and x stays above the root of n. */
  lemma NewtonSumFits(n: nat, x: nat)
    requires n <= U128_MAX && 1 <= x <= n / 2 && n < (x + 1) * (x + 1)
    ensures x + n / x <= U128_MAX
  {
    if x == 1 {
      assert n < 4;
    } else {
      assert n / x <= n / 2 by {
        DivisorLargerQuotientSmaller(n, 2, x);
      }
    }
  }

  lemma DivisorLargerQuotientSmaller(n: nat, a: nat, b: nat)
    requires 0 < a <= b
    ensures n / b <= n / a
  {
    var q := n / b;
    assert q * b <= n;
    assert q * a <= q * b;
    assert q * a <= n;
    assert n == a * (n / a) + n % a;
    ProductCancel(a, n / a + 1, q);
  }

  /** `integer_sqrt`: Newton's method from the guess n / 2, stopping as soon as
      a step no longer decreases the iterate. Returns the integer part of the
      square root of n; 0 and 1 are returned unchanged before the loop. */
  method IntegerSqrt(n: U128) returns (r: U128)
    ensures IsFloorSqrt(n as nat, r as nat)
    ensures r as nat == FloorSqrt(n as nat)
    ensures n < 2 ==> r == n
  {
    if n < 2 {
      r := n;
      FloorSqrtUnique(n as nat, r as nat, FloorSqrt(n as nat));
      return;
    }
    var x := n / 2;
    assert (n as nat) < (x as nat + 1) * (x as nat + 1) by {
      assert (x as nat) * (x as nat) >= x as nat;
    }
    while true
      invariant 1 <= x <= n / 2
      invariant (n as nat) < (x as nat + 1) * (x as nat + 1)
      decreases x
    {
      NewtonSumFits(n as nat, x as nat);
      var y := (x + n / x) / 2;
      if y >= x {
        NewtonStopIsBelowRoot(n as nat, x as nat);
        r := x;
        FloorSqrtUnique(n as nat, r as nat, FloorSqrt(n as nat));
        return;
      }
      NewtonStepKeepsBracket(n as nat, x as nat);
      x := y;
    }
  }

  /** The source's own test vectors for `integer_sqrt`. */
  lemma IntegerSqrtExamples()
    ensures FloorSqrt(4) == 2 && FloorSqrt(9) == 3 && FloorSqrt(23) == 4
  {
  }
}

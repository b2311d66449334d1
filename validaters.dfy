/** The classification predicates: Mersenne form, primality as the trial
    division is written, compositeness, and the perfect / deficient / abundant
    classification by the sum of proper divisors. */
module Validaters {
  import opened Arithmetic
  import opened Getters

  // ---------------------------------------------------------------------------
  // Mersenne form: n + 1 is a power of two

  /** Bitwise AND of two non-negative integers, bit by bit from the lowest; on
      values below 2^128 it is u128's `&`. */
  function BitAnd(a: nat, b: nat): (r: nat)
    ensures r <= a && r <= b
  {
    if a == 0 || b == 0 then 0
    else 2 * BitAnd(a / 2, b / 2) + (if a % 2 == 1 && b % 2 == 1 then 1 else 0)
  }

  function Pow2(k: nat): (p: nat)
    ensures p >= 1
  {
    if k == 0 then 1 else 2 * Pow2(k - 1)
  }

  ghost predicate IsPowerOfTwo(m: nat) {
    exists k: nat :: Pow2(k) == m
  }

  lemma {:induction false} BitAndSelf(a: nat)
    ensures BitAnd(a, a) == a
  {
    if a > 0 {
      BitAndSelf(a / 2);
    }
  }

  /** The classic test: a positive m is a power of two exactly when clearing
      its lowest set bit, m & (m - 1), leaves nothing. */
  lemma {:induction false} PowerOfTwoBitTrick(m: nat)
    requires m > 0
    ensures BitAnd(m, m - 1) == 0 <==> IsPowerOfTwo(m)
    decreases m
  {
    if m == 1 {
      assert Pow2(0) == 1;
    } else if m % 2 == 1 {
      var a := m / 2;
      BitAndSelf(a);
      assert BitAnd(m, m - 1) == 2 * BitAnd(a, a);
      forall k: nat
        ensures Pow2(k) != m
      {
        if k > 0 {
          assert Pow2(k) == 2 * Pow2(k - 1);
        }
      }
    } else {
      var a := m / 2;
      PowerOfTwoBitTrick(a);
      assert BitAnd(m, m - 1) == 2 * BitAnd(a, a - 1);
      if IsPowerOfTwo(a) {
        var k: nat :| Pow2(k) == a;
        assert Pow2(k + 1) == m;
      }
      if IsPowerOfTwo(m) {
        var k: nat :| Pow2(k) == m;
        assert k > 0;
        assert Pow2(k - 1) == a;
      }
    }
  }

  /** `is_mersenne_number`: n is one less than a power of two. The increment
      `n += 1` must not overflow. */
  function IsMersenneNumber(n: U128): (b: bool)
    requires n as int < U128_MAX
    ensures b <==> IsPowerOfTwo(n as nat + 1)
  {
    var m := n + 1;
    PowerOfTwoBitTrick(m as nat);
    m > 0 && BitAnd(m as nat, (m - 1) as nat) == 0
  }

  /** The source's test vectors for `is_mersenne_number`. */
  lemma MersenneExamples()
    ensures IsMersenneNumber(127) && IsMersenneNumber(255) && IsMersenneNumber(511)
    ensures !IsMersenneNumber(259) && !IsMersenneNumber(117)
  {
    assert Pow2(7) == 128 && Pow2(8) == 256 && Pow2(9) == 512;
    PowerOfTwoBitTrick(260);
    assert BitAnd(260, 259) != 0;
    PowerOfTwoBitTrick(118);
    assert BitAnd(118, 117) != 0;
  }

  // ---------------------------------------------------------------------------
  // Primality by trial division

  predicate Divides(d: nat, n: nat) {
    d > 0 && n % d == 0
  }

  /** Some d strictly between 1 and n divides n. */
  ghost predicate HasProperFactor(n: nat) {
    exists d :: 1 < d < n && Divides(d, n)
  }

  /** A prime in the mathematical sense. */
  ghost predicate IsPrimeNumber(n: nat) {
    n >= 2 && forall d :: 1 < d < n ==> !Divides(d, n)
  }

  /** No candidate 2, ..., hi - 1 divides n: what the trial-division loop has
      established before it tries `hi`. */
  predicate NoFactorBelow(n: nat, hi: nat)
    decreases hi
  {
    hi <= 2 || (NoFactorBelow(n, hi - 1) && n % (hi - 1) != 0)
  }

  lemma {:induction false} NoFactorBelowMeans(n: nat, hi: nat)
    ensures NoFactorBelow(n, hi) <==> forall d :: 2 <= d < hi ==> !Divides(d, n)
    decreases hi
  {
    if hi > 2 {
      NoFactorBelowMeans(n, hi - 1);
      if n % (hi - 1) == 0 {
        assert Divides(hi - 1, n);
      }
    }
  }

  /** The verdict of `is_prime` as the source writes it: false for 0 and 1,
      true for 2, otherwise trial division by 2 up to but EXCLUDING the
      integer square root. */
  predicate ReportedPrime(n: nat) {
    if n == 0 || n == 1 then false
    else if n == 2 then true
    else NoFactorBelow(n, FloorSqrt(n))
  }

  /** `is_prime`, as written. */
  method IsPrime(n: U128) returns (b: bool)
    ensures b == ReportedPrime(n as nat)
    ensures IsPrimeNumber(n as nat) ==> b
    ensures !b && n >= 2 ==> HasProperFactor(n as nat)
  {
    if IsPrimeNumber(n as nat) {
      PrimesAreReported(n as nat);
    }
    if n >= 2 && !ReportedPrime(n as nat) {
      RejectedHasFactor(n as nat);
    }
    if n == 0 || n == 1 {
      return false;
    }
    if n == 2 {
      return true;
    }
    var r := IntegerSqrt(n);
    var i: U128 := 2;
    while i < r
      invariant 2 <= i && (i <= r || i == 2)
      invariant NoFactorBelow(n as nat, i as nat)
    {
      if n % i == 0 {
        NoFactorBelowMeans(n as nat, r as nat);
        assert Divides(i as nat, n as nat);
        return false;
      }
      i := i + 1;
    }
    return true;
  }

  /** For n >= 3 the verdict is exactly: no i with 2 <= i < integer_sqrt(n)
      divides n. */
  lemma ReportedPrimeMeans(n: nat)
    requires n >= 3
    ensures ReportedPrime(n) <==> forall i :: 2 <= i < FloorSqrt(n) ==> !Divides(i, n)
  {
    NoFactorBelowMeans(n, FloorSqrt(n));
  }

  /** Every prime is reported prime. */
  lemma PrimesAreReported(n: nat)
    requires IsPrimeNumber(n)
    ensures ReportedPrime(n)
  {
    if n > 2 {
      var r := FloorSqrt(n);
      FloorSqrtBelow(n, r);
      NoFactorBelowMeans(n, r);
    }
  }

  /** A negative verdict for n >= 2 is always backed by a factor strictly
      between 1 and n. */
  lemma RejectedHasFactor(n: nat)
    requires n >= 2 && !ReportedPrime(n)
    ensures HasProperFactor(n)
  {
    var r := FloorSqrt(n);
    FloorSqrtBelow(n, r);
    NoFactorBelowMeans(n, r);
    var d :| 2 <= d < r && Divides(d, n);
    assert 1 < d < n;
  }

  /** The exclusive bound lets composites through: 4 = 2 * 2, 6 = 2 * 3,
      9 = 3 * 3, 15 = 3 * 5 and 25 = 5 * 5 are all reported prime. */
  lemma ReportedPrimeAdmitsComposites()
    ensures ReportedPrime(4) && !IsPrimeNumber(4)
    ensures ReportedPrime(6) && !IsPrimeNumber(6)
    ensures ReportedPrime(9) && !IsPrimeNumber(9)
    ensures ReportedPrime(15) && !IsPrimeNumber(15)
    ensures ReportedPrime(25) && !IsPrimeNumber(25)
  {
    assert Divides(2, 4) && Divides(2, 6) && Divides(3, 9) && Divides(3, 15) && Divides(5, 25);
  }

  /** The source's test vectors for `is_prime`, and the two explicit early
      answers. */
  lemma PrimalityExamples()
    ensures !ReportedPrime(0) && !ReportedPrime(1) && ReportedPrime(2)
    ensures ReportedPrime(7) && ReportedPrime(107) && ReportedPrime(7919)
  {
    FloorSqrtUnique(107, 10, FloorSqrt(107));
    FloorSqrtUnique(7919, 88, FloorSqrt(7919));
    TrialDivision7919();
  }

  lemma TrialDivision7919()
    ensures NoFactorBelow(7919, 88)
  {
    assert NoFactorBelow(7919, 16);
    assert NoFactorBelow(7919, 24);
    assert NoFactorBelow(7919, 32);
    assert NoFactorBelow(7919, 40);
    assert NoFactorBelow(7919, 48);
    assert NoFactorBelow(7919, 56);
    assert NoFactorBelow(7919, 64);
    assert NoFactorBelow(7919, 72);
    assert NoFactorBelow(7919, 80);
  }

  /** The cofactor n / d of a proper factor d is itself a proper factor. */
  lemma Cofactor(n: nat, d: nat)
    requires 1 < d < n && Divides(d, n)
    ensures n == d * (n / d)
    ensures 1 < n / d && Divides(n / d, n)
  {
    var e := n / d;
    assert n == d * e + n % d;
    assert d * e > d * 1;
    ProductCancel(d, e, 1);
    ModOfProduct(e, d);
    assert e * d == n;
  }

  /** A multiple of e leaves no remainder modulo e. */
  lemma ModOfProduct(e: nat, d: nat)
    requires e > 0
    ensures (e * d) % e == 0
  {
    var a := e * d;
    var q := a / e;
    var r := a % e;
    assert a == e * q + r;
    var t := d - q;
    assert e * t == r by {
      assert e * t == e * d - e * q;
    }
    assert e * 1 > e * t;
    ProductCancel(e, 1, t);
    assert e * t > e * (-1);
    ProductCancel(e, t, -1);
    assert t == 0;
  }

  /** A factor strictly between 1 and n implies one in [2, integer_sqrt(n)]. */
  lemma FactorAtMostRoot(n: nat, d: nat, r: nat)
    requires IsFloorSqrt(n, r) && 1 < d < n && Divides(d, n)
    ensures exists e :: 2 <= e <= r && Divides(e, n)
  {
    Cofactor(n, d);
    var e := n / d;
    if d <= e {
      MulMonotonic(d, d, e);
      BelowFloorSqrt(n, r, d);
      assert 2 <= d <= r && Divides(d, n);
    } else {
      MulMonotonic(e, e, d);
      assert e * d == d * e;
      BelowFloorSqrt(n, r, e);
      assert 2 <= e <= r && Divides(e, n);
    }
  }

  /** `is_prime` with the bound INCLUDING the integer square root, 2..=isqrt(n):
      the answer is then exactly mathematical primality. */
  method IsPrimeInclusive(n: U128) returns (b: bool)
    ensures b == IsPrimeNumber(n as nat)
  {
    if n == 0 || n == 1 {
      return false;
    }
    if n == 2 {
      return true;
    }
    var r := IntegerSqrt(n);
    FloorSqrtBelow(n as nat, r as nat);
    var i: U128 := 2;
    while i <= r
      invariant 2 <= i && (i <= r + 1 || i == 2)
      invariant NoFactorBelow(n as nat, i as nat)
    {
      if n % i == 0 {
        assert Divides(i as nat, n as nat) && 1 < i < n;
        return false;
      }
      i := i + 1;
    }
    var m := n as nat;
    NoFactorBelowMeans(m, i as nat);
    forall d | 1 < d < m
      ensures !Divides(d, m)
    {
      if Divides(d, m) {
        FactorAtMostRoot(m, d, r as nat);
      }
    }
    return true;
  }

  // ---------------------------------------------------------------------------
  // Compositeness

  /** `is_composite`: the negation of `is_prime`, so 0 and 1 count too. */
  method IsComposite(n: U128) returns (b: bool)
    ensures b == !ReportedPrime(n as nat)
    ensures n < 2 ==> b
    ensures IsPrimeNumber(n as nat) ==> !b
    ensures b && n >= 2 ==> HasProperFactor(n as nat)
  {
    var p := IsPrime(n);
    b := !p;
  }

  /** The source's test vectors for `is_composite`. */
  lemma CompositeExamples()
    ensures !ReportedPrime(28) && !ReportedPrime(128) && !ReportedPrime(243) && !ReportedPrime(2401)
  {
    FloorSqrtUnique(28, 5, FloorSqrt(28));
    FloorSqrtUnique(128, 11, FloorSqrt(128));
    FloorSqrtUnique(243, 15, FloorSqrt(243));
    FloorSqrtUnique(2401, 49, FloorSqrt(2401));
    NoFactorBelowMeans(28, 5);
    NoFactorBelowMeans(128, 11);
    NoFactorBelowMeans(243, 15);
    NoFactorBelowMeans(2401, 49);
    assert Divides(2, 28) && Divides(2, 128) && Divides(3, 243) && Divides(7, 2401);
  }

  // ---------------------------------------------------------------------------
  // Perfect, deficient and abundant numbers

  /** `divisors.iter().sum()` over the unbounded integers. */
  function Sum(s: seq<U128>): nat {
    if s == [] then 0 else Sum(s[..|s| - 1]) + s[|s| - 1] as nat
  }

  /** The sum of the divisors of n below k, added up directly rather than
      through the list. */
  function DivisorSumBelow(n: nat, k: nat): nat
    decreases k
  {
    if k <= 1 then 0
    else DivisorSumBelow(n, k - 1) + (if n % (k - 1) == 0 then k - 1 else 0)
  }

  /** Summing the list `get_divisors` builds gives the direct divisor sum. */
  lemma {:induction false} SumOfDivisorsBelow(n: U128, k: nat)
    requires k <= n as nat + 1
    ensures Sum(DivisorsBelow(n, k)) == DivisorSumBelow(n as nat, k)
    decreases k
  {
    if k > 1 {
      SumOfDivisorsBelow(n, k - 1);
      var prev := DivisorsBelow(n, k - 1);
      var s := DivisorsBelow(n, k);
      if n % ((k - 1) as U128) == 0 {
        assert s == prev + [(k - 1) as U128];
        assert s[..|s| - 1] == prev;
        assert Sum(s) == Sum(prev) + k - 1;
      } else {
        assert s == prev;
      }
    }
  }

  /** The sum of the divisors of n minus n itself: `summation -= n`. */
  function ProperDivisorSum(n: U128): int {
    Sum(Divisors(n)) - n as int
  }

  lemma {:induction false} SumAtLeastMember(s: seq<U128>, j: nat)
    requires j < |s|
    ensures Sum(s) >= s[j] as nat
    decreases |s|
  {
    if j < |s| - 1 {
      SumAtLeastMember(s[..|s| - 1], j);
    }
  }

  /** n is among its own divisors, so `summation -= n` never underflows; for
      n >= 2, 1 is among them too, so a sum that fits in u128 leaves room for
      the `n + 1` of the enumeration. */
  lemma DivisorSumCoversN(n: U128)
    ensures Sum(Divisors(n)) >= n as nat
    ensures n >= 2 ==> Sum(Divisors(n)) >= n as nat + 1
  {
    if n >= 1 {
      var s := Divisors(n);
      DivisorsEnds(n);
      SumAtLeastMember(s, |s| - 1);
      if n >= 2 {
        var prefix := s[..|s| - 1];
        assert s[0] == 1 && |s| >= 2;
        assert prefix[0] == 1;
        SumAtLeastMember(prefix, 0);
      }
    }
  }

  /** The sum fitting in u128 implies n < u128::MAX, so `get_divisors` is safe. */
  lemma SumFitsImpliesRangeFits(n: U128)
    requires Sum(Divisors(n)) <= U128_MAX
    ensures (n as int) < U128_MAX
  {
    DivisorSumCoversN(n);
  }

  /** `is_perfect_number`: the proper-divisor sum equals n. The divisor sum
      must fit in u128. */
  method IsPerfectNumber(n: U128) returns (b: bool)
    requires Sum(Divisors(n)) <= U128_MAX
    ensures b == (ProperDivisorSum(n) == n as int)
    ensures n == 0 ==> b
  {
    ProperDivisorSumFacts(n);
    SumFitsImpliesRangeFits(n);
    var divisors := GetDivisors(n);
    var summation: U128 := Sum(divisors) as U128;
    DivisorSumCoversN(n);
    summation := summation - n;
    b := summation == n;
  }

  /** `is_deficient_number`: the proper-divisor sum is below n. */
  method IsDeficientNumber(n: U128) returns (b: bool)
    requires Sum(Divisors(n)) <= U128_MAX
    ensures b == (ProperDivisorSum(n) < n as int)
    ensures n == 0 ==> !b
  {
    ProperDivisorSumFacts(n);
    SumFitsImpliesRangeFits(n);
    var divisors := GetDivisors(n);
    var summation: U128 := Sum(divisors) as U128;
    DivisorSumCoversN(n);
    summation := summation - n;
    b := summation < n;
  }

  /** `is_abundant_number`: the proper-divisor sum exceeds n. */
  method IsAbundantNumber(n: U128) returns (b: bool)
    requires Sum(Divisors(n)) <= U128_MAX
    ensures b == (ProperDivisorSum(n) > n as int)
    ensures n == 0 ==> !b
  {
    ProperDivisorSumFacts(n);
    SumFitsImpliesRangeFits(n);
    var divisors := GetDivisors(n);
    var summation: U128 := Sum(divisors) as U128;
    DivisorSumCoversN(n);
    summation := summation - n;
    b := summation > n;
  }

  /** The proper-divisor sum is never negative, and 0 (whose divisor list is
      empty) is perfect and neither deficient nor abundant. */
  lemma ProperDivisorSumFacts(n: U128)
    ensures ProperDivisorSum(n) >= 0
    ensures n == 0 ==> ProperDivisorSum(n) == 0
  {
    DivisorSumCoversN(n);
    if n == 0 {
      DivisorsOfZero();
    }
  }

  /** For n >= 1 the proper-divisor sum is the sum of the divisors of n
      strictly below n. */
  lemma ProperDivisorSumIsSumBelowN(n: U128)
    requires n >= 1
    ensures ProperDivisorSum(n) == DivisorSumBelow(n as nat, n as nat)
  {
    SumOfDivisorsBelow(n, n as nat + 1);
  }

  /** Exactly one of perfect, deficient and abundant holds for every n; for 0
      it is perfect. */
  lemma ClassificationIsExclusive(n: U128)
    ensures ProperDivisorSum(n) == n as int || ProperDivisorSum(n) < n as int || ProperDivisorSum(n) > n as int
    ensures !(ProperDivisorSum(n) == n as int && ProperDivisorSum(n) < n as int)
    ensures !(ProperDivisorSum(n) == n as int && ProperDivisorSum(n) > n as int)
    ensures !(ProperDivisorSum(n) < n as int && ProperDivisorSum(n) > n as int)
    ensures n == 0 ==> ProperDivisorSum(n) == n as int
  {
    ProperDivisorSumFacts(n);
  }

  /** The source's test vectors for the three divisor-sum predicates. */
  lemma DivisorSumExamples()
    ensures ProperDivisorSum(6) == 6 && ProperDivisorSum(28) == 28
    ensures ProperDivisorSum(9) < 9 && ProperDivisorSum(16) < 16
    ensures ProperDivisorSum(12) > 12
  {
    SumOfDivisorsBelow(6, 7);
    SumOfDivisorsBelow(28, 29);
    SumOfDivisorsBelow(9, 10);
    SumOfDivisorsBelow(16, 17);
    SumOfDivisorsBelow(12, 13);
    DirectDivisorSums();
  }

  lemma DirectDivisorSums()
    ensures DivisorSumBelow(6, 7) == 12 && DivisorSumBelow(28, 29) == 56
    ensures DivisorSumBelow(9, 10) == 13 && DivisorSumBelow(16, 17) == 31
    ensures DivisorSumBelow(12, 13) == 28
  {
    assert DivisorSumBelow(28, 8) == 14;
    assert DivisorSumBelow(28, 12) == 14;
    assert DivisorSumBelow(28, 15) == 28;
    assert DivisorSumBelow(28, 22) == 28;
    assert DivisorSumBelow(16, 9) == 15;
  }
}

# Hyperfine number theory, modelled in Dafny

Hyperfine is a small Rust library of elementary number theory over `u128`.
It has three parts:

- `integer_sqrt`: the integer square root by Newton's method.
- `get_divisors`: the ascending list of divisors of `n`, found by trial division over `1..=n`.
- The classification predicates. `is_mersenne_number` tests whether `n + 1` is a power of two with a bit trick. `is_prime` does trial division up to `integer_sqrt(n)`. `is_composite` is its negation. `is_perfect_number`, `is_deficient_number` and `is_abundant_number` compare the proper-divisor sum with `n`.

The model has one Dafny module per source file:

- `arithmetic.dfy` (module `Arithmetic`) holds the `U128` newtype. It also holds `FloorSqrt`, a reference integer square root defined by recursion on `n / 4`, and the method `IntegerSqrt`, which runs the source's Newton loop.
- `getters.dfy` (module `Getters`) holds the specification function `Divisors` and the method `GetDivisors`, which runs the trial-division loop.
- `validaters.dfy` (module `Validaters`) holds the predicates. `IsPrime`, `IsComposite` and the three divisor-sum predicates are methods because the source computes them with loops and mutable locals. `IsMersenneNumber` is a function.

`u128` is the newtype `U128` (0 to 2^128 - 1). Any arithmetic that leaves that range is a proof obligation, which matches a Rust debug build that panics on overflow. This is how the model shows that `x + n / x` in the Newton loop never overflows. It also shows that `summation -= n` never underflows. Two inputs do overflow in the source, and preconditions exclude them:

- `n + 1` overflows when `n == u128::MAX` (src/getters.rs:12 and src/validaters.rs:15).
- The divisor sum can exceed `u128::MAX` (src/validaters.rs:74).

The model follows the code where the documentation promises something else:

- `get_divisors(0)` returns the empty list, because the range `1..1` is empty.
- `is_perfect_number(0)` is true.
- `is_prime` uses an exclusive bound `2..integer_sqrt(n)`, so it under-checks (see Findings).

## Model

| member | source | states |
|---|---|---|
| `Arithmetic.IntegerSqrt` | src/arithmetic.rs:13-26 | The result r satisfies r*r <= n < (r+1)*(r+1) and equals the reference `FloorSqrt(n)`. 0 and 1 are returned unchanged. The loop invariant keeps every iterate x in 1 <= x <= n/2 and n < (x+1)^2, so `n / x` never divides by zero. `decreases x` proves termination. `x + n / x` fits in u128 |
| `Arithmetic.FloorSqrt` | src/arithmetic.rs:11-12 | An independent reference for "the integer part of the square root": its result r satisfies r*r <= n < (r+1)*(r+1) for every n |
| `Arithmetic.FloorSqrtUnique` | src/arithmetic.rs:11-12 | At most one r satisfies r*r <= n < (r+1)^2, so Newton's method and the reference agree |
| `Arithmetic.FloorSqrtBelow` | src/arithmetic.rs:13-26 | For n >= 2 the integer root is strictly below n. The trial-division loops rely on this |
| `Arithmetic.NewtonStepNotBelowRoot` | src/arithmetic.rs:20 | For x >= 1 and r*r <= n, the step (x + n/x)/2 is at least r, so the iteration never undershoots the root |
| `Arithmetic.NewtonStepKeepsBracket` | src/arithmetic.rs:20-24 | The new iterate y still satisfies n < (y+1)^2. This is the preserved half of the loop invariant |
| `Arithmetic.NewtonStopIsBelowRoot` | src/arithmetic.rs:21-22 | When the step does not decrease (y >= x), x*x <= n, so the returned x is the integer root |
| `Arithmetic.NewtonSumFits` | src/arithmetic.rs:20 | While 1 <= x <= n/2 and n < (x+1)^2, the sum x + n/x is at most u128::MAX |
| `Arithmetic.IntegerSqrtExamples` | src/arithmetic.rs:38-40 | The integer roots of 4, 9 and 23 are 2, 3 and 4 |
| `Getters.GetDivisors` | src/getters.rs:10-18 | The result is `Divisors(n)`. Every element lies in [1, n] and divides n. The list is strictly ascending. Every divisor of n in [1, n] occurs in it. Requires n < u128::MAX because of `n + 1` |
| `Getters.DivisorsBelowSound` | src/getters.rs:12-15 | Everything pushed before candidate k lies in [1, k) and divides n |
| `Getters.DivisorsBelowIncreasing` | src/getters.rs:12-15 | What has been pushed so far is strictly ascending, because i grows by one and is pushed at most once |
| `Getters.DivisorsBelowComplete` | src/getters.rs:12-15 | Every divisor of n below k has been pushed before candidate k |
| `Getters.DivisorsExact` | src/getters.rs:10-18 | The full list holds exactly the divisors of n in [1, n], ascending |
| `Getters.DivisorsCharacterized` | src/getters.rs:1-10 | Any strictly ascending list whose elements are exactly the divisors of n in [1, n] equals `Divisors(n)`, so the output is the promised list and nothing else |
| `Getters.DivisorsOfZero` | src/getters.rs:12 | For n == 0 the range 1..1 is empty and the result is [] |
| `Getters.DivisorsEnds` | src/getters.rs:12-15 | For n >= 1 the list is non-empty, its first element is 1 and its last is n |
| `Validaters.IsMersenneNumber` | src/validaters.rs:14-17 | True exactly when n + 1 is a power of two (2^k for some k). Requires n < u128::MAX because of `n += 1` |
| `Validaters.PowerOfTwoBitTrick` | src/validaters.rs:16 | For m > 0, `m & (m - 1) == 0` holds exactly when m is a power of two |
| `Validaters.MersenneExamples` | src/validaters.rs:123-129 | 127, 255 and 511 are Mersenne-form. 259 and 117 are not |
| `Validaters.IsPrime` | src/validaters.rs:30-43 | The result is the as-written verdict `ReportedPrime(n)`: false for 0 and 1, true for 2, otherwise no i in 2..integer_sqrt(n) divides n. Every prime gets true. A false answer for n >= 2 comes with a factor strictly between 1 and n |
| `Validaters.NoFactorBelowMeans` | src/validaters.rs:37-41 | What the loop has checked before candidate hi holds exactly when no d with 2 <= d < hi divides n |
| `Validaters.ReportedPrimeMeans` | src/validaters.rs:37-42 | For n >= 3, `is_prime(n)` is true exactly when no i with 2 <= i < integer_sqrt(n) divides n |
| `Validaters.PrimesAreReported` | src/validaters.rs:37-42 | Every mathematical prime is reported prime |
| `Validaters.RejectedHasFactor` | src/validaters.rs:37-41 | For n >= 2, a false verdict implies n has a divisor strictly between 1 and n |
| `Validaters.ReportedPrimeAdmitsComposites` | src/validaters.rs:37 | The exclusive bound reports 4, 6, 9, 15 and 25 as prime, though none of them is prime |
| `Validaters.PrimalityExamples` | src/validaters.rs:131-137 | The source's test vectors 2, 7, 107 and 7919 are reported prime. The early answers for 0 and 1 are false |
| `Validaters.TrialDivision7919` | src/validaters.rs:136 | No candidate 2..87 divides 7919, the last of the source's prime test vectors |
| `Validaters.FactorAtMostRoot` | src/validaters.rs:37 | Any factor strictly between 1 and n implies a factor in [2, integer_sqrt(n)]. The bound is therefore sound only when it includes the root |
| `Validaters.IsPrimeInclusive` | src/validaters.rs:30-43 | The corrected loop, bound `2..=integer_sqrt(n)`. Its result equals mathematical primality for every u128 |
| `Validaters.IsComposite` | src/validaters.rs:57-59 | The negation of `is_prime`. 0 and 1 are composite, no prime is composite, and a composite n >= 2 has a factor strictly between 1 and n |
| `Validaters.CompositeExamples` | src/validaters.rs:161-171 | 28, 128, 243 and 2401 are composite. The four non-composite test vectors are primality vectors, covered by `PrimalityExamples` and `TrialDivision7919` |
| `Validaters.SumOfDivisorsBelow` | src/validaters.rs:73-74 | Summing the list that trial division builds gives the sum of the divisors below k, added up directly |
| `Validaters.DivisorSumCoversN` | src/validaters.rs:73-75 | The divisor sum is at least n, because n is in the list, so `summation -= n` never underflows. For n >= 2 the sum is at least n + 1 |
| `Validaters.SumFitsImpliesRangeFits` | src/validaters.rs:73-74 | If the divisor sum fits in u128, then n < u128::MAX, so `get_divisors`' `n + 1` cannot overflow |
| `Validaters.IsPerfectNumber` | src/validaters.rs:72-77 | True exactly when the proper-divisor sum equals n. True for n == 0 |
| `Validaters.IsDeficientNumber` | src/validaters.rs:91-96 | True exactly when the proper-divisor sum is below n. False for n == 0 |
| `Validaters.IsAbundantNumber` | src/validaters.rs:111-116 | True exactly when the proper-divisor sum exceeds n. False for n == 0 |
| `Validaters.ProperDivisorSumFacts` | src/validaters.rs:73-76 | The proper-divisor sum is never negative, and it is 0 for n == 0 |
| `Validaters.ProperDivisorSumIsSumBelowN` | src/validaters.rs:73-75 | For n >= 1, the divisor sum minus n equals the sum of the divisors strictly below n |
| `Validaters.ClassificationIsExclusive` | src/validaters.rs:72-116 | Exactly one of perfect, deficient and abundant holds for each n. For n == 0 it is perfect |
| `Validaters.DivisorSumExamples` | src/validaters.rs:139-159 | 6 and 28 are perfect. 9 and 16 are deficient. 12 is abundant |

## Findings

| source | as written | input that shows it | evidently intended | confidence | as-written member | corrected member |
|---|---|---|---|---|---|---|
| src/validaters.rs:37 | `for i in 2..integer_sqrt(n)` stops before the integer root | `is_prime(4)`, `is_prime(6)`, `is_prime(9)`, `is_prime(15)` and `is_prime(25)` all return true | the bound `2..=integer_sqrt(n)`, making `is_prime(n)` true exactly for primes | proved in Dafny, not executed | `Validaters.ReportedPrimeAdmitsComposites` | `Validaters.IsPrimeInclusive` |

`IsPrime` and `IsComposite` still model the code as written, because the library's `is_composite` calls that code. `IsPrimeInclusive` is the corrected definition. Its contract is mathematical primality, and `FactorAtMostRoot` is the lemma its proof rests on.

## Left out

- `inverse_sqrt` (src/arithmetic.rs:28-30) is an empty stub over `f64` with no behaviour, so it is not modelled.
- Wrap-around in release builds is not modelled. Overflow is a failed proof obligation, as in a debug build. Where the source can overflow, a precondition excludes the input:
  - `n < u128::MAX` for `GetDivisors` and `IsMersenneNumber`.
  - A divisor sum of at most `u128::MAX` for the three divisor-sum predicates.
- Validaters.IsMersenneNumber: the bitwise `&` is modelled as `BitAnd`, a bit-by-bit AND over non-negative integers. For values below 2^128 it agrees with `u128`'s `&`. The model has no 128-bit bit-vector.
- Validaters.IsPerfectNumber, Validaters.IsDeficientNumber, Validaters.IsAbundantNumber: `divisors.iter().sum()` is the function `Sum` over unbounded integers. A precondition requires the total to fit in u128. All the summands are non-negative, so no partial sum can exceed the total.
- Running time is not modelled. That covers the O(n) trial division and the number of Newton iterations. Only results, ordering, termination and the absence of overflow are.
- The `#[cfg(test)]` modules are not modelled as code. Their assertions appear as the `...Examples` lemmas.

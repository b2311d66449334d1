/** Divisor enumeration by trial division over 1, ..., n. */
module Getters {
  import opened Arithmetic

  /** The divisors of `n` among 1, ..., k - 1, in the order trial division
      meets them: what `get_divisors` has collected before it tries `k`. */
  function DivisorsBelow(n: U128, k: nat): seq<U128>
    requires k <= n as nat + 1
    decreases k
  {
    if k <= 1 then []
    else DivisorsBelow(n, k - 1) + (if n % ((k - 1) as U128) == 0 then [(k - 1) as U128] else [])
  }

  /** All the divisors of `n`, found by trying every candidate in 1, ..., n. */
  function Divisors(n: U128): seq<U128> {
    DivisorsBelow(n, n as nat + 1)
  }

  predicate StrictlyIncreasing(s: seq<U128>) {
    forall i, j :: 0 <= i < j < |s| ==> s[i] < s[j]
  }

  /** Every element of `s` lies in [1, n] and divides `n` with zero remainder. */
  predicate AllDivide(s: seq<U128>, n: U128) {
    forall j :: 0 <= j < |s| ==> 1 <= s[j] <= n && n % s[j] == 0
  }

  /** Every divisor of `n` in [1, k) occurs in `s`. */
  predicate HasDivisorsBelow(s: seq<U128>, n: U128, k: nat) {
    forall d: U128 :: 1 <= d && d as nat < k && n % d == 0 ==> d in s
  }

  /** Every element collected before candidate `k` is a divisor of `n` below `k`. */
  lemma {:induction false} DivisorsBelowSound(n: U128, k: nat)
    requires k <= n as nat + 1
    ensures AllDivide(DivisorsBelow(n, k), n)
    ensures forall j :: 0 <= j < |DivisorsBelow(n, k)| ==> DivisorsBelow(n, k)[j] as nat < k
  {
    if k > 1 {
      DivisorsBelowSound(n, k - 1);
    }
  }

  /** The prefix collected before candidate `k` is strictly increasing. */
  lemma {:induction false} DivisorsBelowIncreasing(n: U128, k: nat)
    requires k <= n as nat + 1
    ensures StrictlyIncreasing(DivisorsBelow(n, k))
  {
    if k > 1 {
      DivisorsBelowIncreasing(n, k - 1);
      DivisorsBelowSound(n, k - 1);
      var prev := DivisorsBelow(n, k - 1);
      var s := DivisorsBelow(n, k);
      if n % ((k - 1) as U128) == 0 {
        assert s == prev + [(k - 1) as U128];
        forall i, j | 0 <= i < j < |s|
          ensures s[i] < s[j]
        {
          if j < |prev| {
            assert s[i] == prev[i] && s[j] == prev[j];
          } else {
            assert s[i] == prev[i];
          }
        }
      }
    }
  }

  /** No divisor of `n` below `k` is missed by the prefix collected before `k`. */
  lemma {:induction false} DivisorsBelowComplete(n: U128, k: nat)
    requires k <= n as nat + 1
    ensures HasDivisorsBelow(DivisorsBelow(n, k), n, k)
  {
    if k > 1 {
      DivisorsBelowComplete(n, k - 1);
      var prev := DivisorsBelow(n, k - 1);
      var s := DivisorsBelow(n, k);
      forall d: U128 | 1 <= d && d as nat < k && n % d == 0
        ensures d in s
      {
        if d as nat < k - 1 {
          assert d in prev;
        } else {
          assert s == prev + [d];
        }
      }
    }
  }

  /** Exactly the divisors of `n`, ascending, each once. */
  lemma DivisorsExact(n: U128)
    ensures AllDivide(Divisors(n), n)
    ensures StrictlyIncreasing(Divisors(n))
    ensures forall d: U128 :: 1 <= d <= n && n % d == 0 ==> d in Divisors(n)
  {
    DivisorsBelowSound(n, n as nat + 1);
    DivisorsBelowIncreasing(n, n as nat + 1);
    DivisorsBelowComplete(n, n as nat + 1);
  }

  /** The tail of a strictly increasing list holds its elements other than the first. */
  lemma TailMembers(s: seq<U128>)
    requires StrictlyIncreasing(s) && s != []
    ensures StrictlyIncreasing(s[1..])
    ensures forall x :: x in s[1..] <==> x in s && x != s[0]
  {
    forall x | x in s && x != s[0]
      ensures x in s[1..]
    {
      var m :| 0 <= m < |s| && s[m] == x;
      assert s[1..][m - 1] == x;
    }
  }

  /** The head of a strictly increasing list is its least element. */
  lemma HeadIsLeast(s: seq<U128>, x: U128)
    requires StrictlyIncreasing(s) && x in s
    ensures s[0] <= x
  {
    var m :| 0 <= m < |s| && s[m] == x;
  }

  /** Two strictly increasing lists with the same elements are equal. */
  lemma {:induction false} IncreasingListsEqual(s: seq<U128>, t: seq<U128>)
    requires StrictlyIncreasing(s) && StrictlyIncreasing(t)
    requires forall x :: x in s <==> x in t
    ensures s == t
    decreases |s|
  {
    assert s != [] ==> s[0] in s && s[0] in t;
    assert t != [] ==> t[0] in t && t[0] in s;
    if s != [] {
      HeadIsLeast(t, s[0]);
      HeadIsLeast(s, t[0]);
      TailMembers(s);
      TailMembers(t);
      IncreasingListsEqual(s[1..], t[1..]);
      assert s == [s[0]] + s[1..] && t == [t[0]] + t[1..];
    }
  }

  /** The divisor list is the only ascending list of exactly the divisors of
      `n`: whatever enumerates them in order produces Divisors(n). */
  lemma DivisorsCharacterized(n: U128, s: seq<U128>)
    requires StrictlyIncreasing(s)
    requires forall x :: x in s <==> 1 <= x <= n && n % x == 0
    ensures s == Divisors(n)
  {
    DivisorsExact(n);
    var t := Divisors(n);
    forall x
      ensures x in s <==> x in t
    {
      if x in t {
        var k :| 0 <= k < |t| && t[k] == x;
      }
    }
    IncreasingListsEqual(s, t);
  }

  /** The range 1..1 is empty: the divisor list of 0 is empty. */
  lemma DivisorsOfZero()
    ensures Divisors(0) == []
  {
  }

  /** For n >= 1 the list starts with 1 and ends with n. */
  lemma DivisorsEnds(n: U128)
    requires n >= 1
    ensures |Divisors(n)| >= 1
    ensures Divisors(n)[0] == 1 && Divisors(n)[|Divisors(n)| - 1] == n
  {
    var s := Divisors(n);
    DivisorsExact(n);
    assert 1 in s;
    assert n in s;
    var i :| 0 <= i < |s| && s[i] == 1;
    var j :| 0 <= j < |s| && s[j] == n;
    assert s[0] <= s[i];
    assert s[j] <= s[|s| - 1];
  }

  /** `get_divisors`: trial division over 1..n + 1, pushing each `i` that
      divides `n`. The range end `n + 1` must not overflow. */
  method GetDivisors(n: U128) returns (divisors: seq<U128>)
    requires n as int < U128_MAX
    ensures divisors == Divisors(n)
    ensures AllDivide(divisors, n)
    ensures StrictlyIncreasing(divisors)
    ensures forall d: U128 :: 1 <= d <= n && n % d == 0 ==> d in divisors
  {
    divisors := [];
    for i := 1 to n + 1
      invariant divisors == DivisorsBelow(n, i as nat)
    {
      if n % i == 0 {
        divisors := divisors + [i];
      }
    }
    DivisorsExact(n);
  }
}

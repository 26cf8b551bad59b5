/**
 The closed-form count of increasing-or-decreasing numbers below 10^x
 (0 included), C(x + 9, x) + C(x + 10, x) - (10x + 1), and what it promises:
 it is a positive count, it grows strictly with x, and it takes the tabulated
 values for x = 0 .. 6.
 */
module IncDecCount {
  import opened Combinatorics

  /** Numbers with non-decreasing digits: x digits from 10 kinds, with repetition. */
  ghost function Increasing(x: nat): nat
  {
    Binom(x + 9, x)
  }

  /** Numbers with non-increasing digits: 11 kinds, counting a leading-zero filler. */
  ghost function Decreasing(x: nat): nat
  {
    Binom(x + 10, x)
  }

  /** The correction for numbers counted as both. */
  ghost function Duplicates(x: nat): nat
  {
    10 * x + 1
  }

  ghost function TotalCount(x: nat): int
  {
    Increasing(x) + Decreasing(x) - Duplicates(x)
  }

  /**
   One more digit adds C(x + 8, x) + C(x + 9, x) - 10 to the count, which is
   at least x.
   */
  lemma TotalCountStep(x: nat)
    requires x >= 1
    ensures TotalCount(x) == TotalCount(x - 1) + Binom(x + 8, x) + Binom(x + 9, x) - 10
    ensures TotalCount(x) >= TotalCount(x - 1) + x
  {
    assert Binom(x + 9, x) == Binom(x + 8, x - 1) + Binom(x + 8, x);
    assert Binom(x + 10, x) == Binom(x + 9, x - 1) + Binom(x + 9, x);
    BinomAtLeastRow(x + 9, x);
    BinomPositive(x + 8, x);
  }

  /** The count is never negative; indeed it is at least one. */
  lemma {:induction false} TotalCountPositive(x: nat)
    ensures TotalCount(x) >= 1
    ensures Increasing(x) + Decreasing(x) >= Duplicates(x) + 1
  {
    if x == 0 {
      BinomBaseCases(9);
      BinomBaseCases(10);
    } else {
      TotalCountPositive(x - 1);
      TotalCountStep(x);
    }
  }

  /** A larger exponent x gives strictly more qualifying numbers. */
  lemma {:induction false} TotalCountStrictlyIncreasing(a: nat, b: nat)
    requires a < b
    ensures TotalCount(a) < TotalCount(b)
  {
    TotalCountStep(b);
    if a < b - 1 {
      TotalCountStrictlyIncreasing(a, b - 1);
    }
  }

  /** Reads a coefficient off the factorial identity C(n, k) * k! * (n-k)! = n!. */
  lemma BinomValue(n: nat, k: nat, v: nat)
    requires k <= n
    requires v * (Fact(k) * Fact(n - k)) == Fact(n)
    ensures Binom(n, k) == v
  {
    BinomFactorial(n, k);
    Regroup(Binom(n, k), Fact(k), Fact(n - k), Fact(n));
    Cancel(Binom(n, k), v, Fact(k) * Fact(n - k));
  }

  /** The seven tabulated values for x = 0 .. 6. */
  lemma TotalCountTable()
    ensures TotalCount(0) == 1
    ensures TotalCount(1) == 10
    ensures TotalCount(2) == 100
    ensures TotalCount(3) == 475
    ensures TotalCount(4) == 1675
    ensures TotalCount(5) == 4954
    ensures TotalCount(6) == 12952
  {
    TotalCountAt(0, 1, 1);
    TotalCountAt(1, 10, 11);
    TotalCountAt(2, 55, 66);
    TotalCountAt(3, 220, 286);
    TotalCountAt(4, 715, 1001);
    TotalCountAt(5, 2002, 3003);
    TotalCountAt(6, 5005, 8008);
  }

  /** The count at x, given the two coefficients as factorial quotients. */
  lemma TotalCountAt(x: nat, inc: nat, dec: nat)
    requires inc * (Fact(x) * Fact(9)) == Fact(x + 9)
    requires dec * (Fact(x) * Fact(10)) == Fact(x + 10)
    ensures TotalCount(x) == inc + dec - (10 * x + 1)
  {
    BinomValue(x + 9, x, inc);
    BinomValue(x + 10, x, dec);
  }
}

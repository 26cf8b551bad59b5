/**
 The service: an exact iterative binomial coefficient and the count of
 increasing-or-decreasing numbers built from it. Both operations are total
 over the integers, as the service performs no input validation.
 */
module TotalIncDecService {
  import opened Combinatorics
  import opened IncDecCount

  function Min(a: int, b: int): (m: int)
    ensures m <= a && m <= b
    ensures m == a || m == b
  {
    if a <= b then a else b
  }

  /**
   Integer division as the service's language performs it: the quotient is
   rounded toward negative infinity. Every divisor the service uses is a loop
   index, hence positive.
   */
  function FloorDiv(a: int, b: int): (q: int)
    requires b > 0
    ensures q * b <= a < q * b + b
  {
    a / b
  }

  /**
   binomial(n, k): returns 1 at once when k is 0 or n; otherwise replaces k by
   min(k, n - k) and accumulates result := result * (n - i + 1) / i for
   i = 1 .. k (no rounds when that bound is below 1). The ghost `steps`
   counts the rounds of the accumulation.
   */
  method Binomial(n: int, k: int) returns (r: int, ghost steps: nat)
    ensures 0 <= k <= n ==> r == Binom(n, k)
    ensures !(0 < k < n) ==> r == 1
    ensures steps == (if 0 < k < n then Min(k, n - k) else 0)
    ensures 0 <= k <= n ==> r >= 1
  {
    if k == 0 || k == n {
      if 0 <= k <= n {
        BinomBaseCases(n);
      }
      return 1, 0;
    }
    var m := Min(k, n - k);
    r := 1;
    steps := 0;
    var i := 1;
    while i <= m
      invariant m >= 1 ==> 0 < k < n && 1 <= i <= m + 1
      invariant m < 1 ==> i == 1
      invariant steps == i - 1
      invariant m >= 1 ==> r == Binom(n, i - 1)
      invariant m < 1 ==> r == 1
    {
      ExactStep(n, i);
      r := FloorDiv(r * (n - i + 1), i);
      i := i + 1;
      steps := steps + 1;
    }
    if 0 < k < n {
      assert r == Binom(n, m);
      if m != k {
        BinomSymmetry(n, k);
      }
      BinomPositive(n, k);
    }
  }

  /**
   call: the count of increasing-or-decreasing numbers below 10^x. For a
   negative x both coefficients fall back to 1 and the result is 1 - 10x.
   */
  method Call(x: int) returns (total: int)
    ensures x >= 0 ==> total == TotalCount(x)
    ensures x >= 0 ==> total >= 1
    ensures x < 0 ==> total == 1 - 10 * x
  {
    var increasing, _ := Binomial(x + 9, x);
    var decreasing, _ := Binomial(x + 10, x);
    var duplicates := 10 * x + 1;
    total := increasing + decreasing - duplicates;
    if x >= 0 {
      TotalCountPositive(x);
    }
  }

  /** `call` on the seven inputs of the service's test file, x = 0 .. 6. */
  method CallOnTestInputs() returns (results: seq<int>)
    ensures results == [1, 10, 100, 475, 1675, 4954, 12952]
  {
    TotalCountTable();
    results := [];
    var x := 0;
    while x < 7
      invariant 0 <= x <= 7
      invariant |results| == x
      invariant forall j :: 0 <= j < x ==> results[j] == TotalCount(j)
    {
      var r := Call(x);
      results := results + [r];
      x := x + 1;
    }
  }
}

/**
 The mathematical reference for the service: factorials and binomial
 coefficients defined by Pascal's rule, with the identities the iterative
 evaluation relies on (factorial form, symmetry, absorption, exact division).
 */
module Combinatorics {

  /** n! */
  ghost function Fact(n: nat): (f: nat)
    ensures f >= 1
  {
    if n == 0 then 1 else n * Fact(n - 1)
  }

  /** C(n, k) by Pascal's rule; zero above the diagonal (k > n). */
  ghost function Binom(n: nat, k: nat): nat
  {
    if k == 0 then 1
    else if n == 0 then 0
    else Binom(n - 1, k - 1) + Binom(n - 1, k)
  }

  /** There is no way to choose more items than there are. */
  lemma {:induction false} BinomAboveDiagonal(n: nat, k: nat)
    requires k > n
    ensures Binom(n, k) == 0
  {
    if n > 0 {
      BinomAboveDiagonal(n - 1, k - 1);
      BinomAboveDiagonal(n - 1, k);
    }
  }

  /** The two base cases: C(n, 0) = 1 and C(n, n) = 1. */
  lemma {:induction false} BinomBaseCases(n: nat)
    ensures Binom(n, 0) == 1
    ensures Binom(n, n) == 1
  {
    if n > 0 {
      BinomBaseCases(n - 1);
      BinomAboveDiagonal(n - 1, n);
    }
  }

  /** Every coefficient on or below the diagonal is at least one. */
  lemma {:induction false} BinomPositive(n: nat, k: nat)
    requires k <= n
    ensures Binom(n, k) >= 1
  {
    if k > 0 && n > 0 {
      BinomPositive(n - 1, k - 1);
    }
  }

  /** Strictly inside the row, C(n, k) is at least n. */
  lemma {:induction false} BinomAtLeastRow(n: nat, k: nat)
    requires 1 <= k < n
    ensures Binom(n, k) >= n
  {
    if k == 1 {
      if n - 1 >= 2 {
        BinomAtLeastRow(n - 1, 1);
      } else {
        BinomBaseCases(n - 1);
      }
    } else {
      BinomAtLeastRow(n - 1, k - 1);
      BinomPositive(n - 1, k);
    }
  }

  /** Pascal's step expressed in factorials: one row of the induction below. */
  lemma PascalFactorialStep(n: nat, k: nat)
    requires 1 <= k < n
    requires Binom(n - 1, k - 1) * Fact(k - 1) * Fact(n - k) == Fact(n - 1)
    requires Binom(n - 1, k) * Fact(k) * Fact(n - 1 - k) == Fact(n - 1)
    ensures Binom(n, k) * Fact(k) * Fact(n - k) == Fact(n)
  {
    var x, y := Fact(k - 1), Fact(n - 1 - k);
    assert Fact(k) == k * x;
    assert Fact(n - k) == (n - k) * y;
    StepArith(Binom(n - 1, k - 1), Binom(n - 1, k), k, n - k, x, y, Fact(n - 1));
  }

  /** The independent reference: C(n, k) * k! * (n-k)! = n! for k <= n. */
  lemma {:induction false} BinomFactorial(n: nat, k: nat)
    requires k <= n
    ensures Binom(n, k) * Fact(k) * Fact(n - k) == Fact(n)
  {
    if k == 0 {
      assert Binom(n, 0) == 1;
    } else if k == n {
      BinomBaseCases(n);
    } else {
      BinomFactorial(n - 1, k - 1);
      BinomFactorial(n - 1, k);
      PascalFactorialStep(n, k);
    }
  }

  /** C(n, k) = n! / (k! (n-k)!), and the division is exact. */
  lemma BinomQuotient(n: nat, k: nat)
    requires k <= n
    ensures Fact(n) % (Fact(k) * Fact(n - k)) == 0
    ensures Binom(n, k) == Fact(n) / (Fact(k) * Fact(n - k))
  {
    BinomFactorial(n, k);
    var d := Fact(k) * Fact(n - k);
    Regroup(Binom(n, k), Fact(k), Fact(n - k), Fact(n));
    DivExact(Fact(n), d, Binom(n, k));
  }

  /** Symmetry: C(n, k) = C(n, n-k). */
  lemma BinomSymmetry(n: nat, k: nat)
    requires k <= n
    ensures Binom(n, k) == Binom(n, n - k)
  {
    BinomFactorial(n, k);
    BinomFactorial(n, n - k);
    assert n - (n - k) == k;
    Regroup(Binom(n, k), Fact(k), Fact(n - k), Fact(n));
    Regroup(Binom(n, n - k), Fact(n - k), Fact(k), Fact(n));
    assert Fact(n - k) * Fact(k) == Fact(k) * Fact(n - k);
    Cancel(Binom(n, k), Binom(n, n - k), Fact(k) * Fact(n - k));
  }

  /**
   Absorption: i * C(n, i) = (n - i + 1) * C(n, i - 1). This is the step of
   the iterative evaluation, and it shows the product is a multiple of i.
   */
  lemma Absorption(n: nat, i: nat)
    requires 1 <= i <= n
    ensures i * Binom(n, i) == (n - i + 1) * Binom(n, i - 1)
  {
    BinomFactorial(n, i);
    BinomFactorial(n, i - 1);
    var a, b := Fact(i - 1), Fact(n - i);
    assert Fact(i) == i * a;
    assert n - (i - 1) == n - i + 1;
    assert Fact(n - i + 1) == (n - i + 1) * b;
    AbsorbArith(Binom(n, i), Binom(n, i - 1), i, n - i + 1, a, b, Fact(n));
  }

  /** The multiply-then-divide step loses nothing: it lands exactly on C(n, i). */
  lemma ExactStep(n: nat, i: nat)
    requires 1 <= i <= n
    ensures (Binom(n, i - 1) * (n - i + 1)) % i == 0
    ensures (Binom(n, i - 1) * (n - i + 1)) / i == Binom(n, i)
  {
    Absorption(n, i);
    DivExact(Binom(n, i - 1) * (n - i + 1), i, Binom(n, i));
  }

  // Arithmetic helpers: nonlinear facts stated over plain integers so that the
  // solver does not have to see through Fact or Binom while proving them.

  /** Cancelling a positive common factor. */
  lemma Cancel(a: int, b: int, c: int)
    requires c > 0
    requires a * c == b * c
    ensures a == b
  {
  }

  /** The ring arithmetic of Pascal's step, with x = (k-1)!, y = (n-1-k)!, m = n - k. */
  lemma StepArith(a: int, b: int, k: int, m: int, x: int, y: int, p: int)
    requires a * x * (m * y) == p
    requires b * (k * x) * y == p
    ensures (a + b) * (k * x) * (m * y) == (k + m) * p
  {
  }

  /** A nonzero multiple of d is at least d away from zero. */
  lemma MulBounds(t: int, d: int)
    requires d > 0
    ensures t >= 1 ==> t * d >= d
    ensures t <= -1 ==> t * d <= -d
  {
  }

  /** If a == q * d with d > 0, then d divides a with quotient q. */
  lemma DivExact(a: int, d: int, q: int)
    requires d > 0
    requires a == q * d
    ensures a % d == 0
    ensures a / d == q
  {
    var q', r := a / d, a % d;
    assert a == q' * d + r && 0 <= r < d;
    var t := q - q';
    assert t * d == q * d - q' * d;
    MulBounds(t, d);
  }

  /** Reassociating a triple product. */
  lemma Regroup(c: int, x: int, y: int, p: int)
    requires c * x * y == p
    ensures c * (x * y) == p
  {
  }

  /** The cancellation behind absorption, with a = (i-1)!, b = (n-i)!, m = n - i + 1. */
  lemma AbsorbArith(c1: int, c0: int, i: int, m: int, a: int, b: int, p: int)
    requires a > 0 && b > 0
    requires c1 * (i * a) * b == p
    requires c0 * a * (m * b) == p
    ensures i * c1 == m * c0
  {
  }
}

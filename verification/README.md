# TotalIncDecService in Dafny

A model of `TotalIncDecService`, a Ruby service that counts the numbers
below 10^x, 0 included, whose digits are non-decreasing ("increasing") or
non-increasing ("decreasing"). The service's test file fixes this reading:
it expects 10 for x = 1 and 100 for x = 2, which are the counts of 0 .. 9
and 0 .. 99, not of the 9 one-digit or 90 two-digit positive numbers. The
comment on `call` (app/services/total_inc_dec_service.rb:14) speaks of
numbers "of length `x`", which the tests do not bear out. The service
evaluates the closed form

    C(x + 9, x) + C(x + 10, x) - (10x + 1)

with an exact iterative binomial coefficient. Ruby integers are unbounded,
and so is Dafny's `int`; no width or wrap-around is involved.

Files:

- `combinatorics.dfy` (module `Combinatorics`): the reference. `Binom` is
  C(n, k) defined by Pascal's rule, with zero above the diagonal. `Fact` is
  n!. The lemmas prove the factorial form C(n, k) * k! * (n-k)! = n!, the
  base cases, symmetry, positivity, and absorption
  i * C(n, i) = (n - i + 1) * C(n, i - 1). Absorption is the reason the
  multiply-then-divide step of the service never truncates.
- `inc_dec_count.dfy` (module `IncDecCount`): the closed form as
  `TotalCount(x)`. Its lemmas prove that the count is at least 1, that it
  grows strictly with `x`, and that it has the seven tabulated values for
  x = 0 .. 6.
- `total_inc_dec_service.dfy` (module `TotalIncDecService`): the service's
  two operations as methods. `Binomial(n, k)` has the same early return, the
  same `min(k, n - k)` shortcut and the same accumulation loop as the Ruby
  code. Its loop invariant is `r == Binom(n, i - 1)`. `Call(x)` composes the
  formula.

Both methods are total over `int`, because the Ruby code validates nothing:

- `binomial(n, k)` returns 1 whenever `k` is not strictly between 0 and `n`.
  This covers the base cases and every out-of-range argument. When k > n,
  `min(k, n - k)` is negative and the `1..k` range is empty. When k < 0, the
  minimum is at most k, hence negative, and the `1..k` range is empty.
- `call(x)` with negative `x` therefore returns `1 + 1 - (10x + 1) = 1 - 10x`.
  It does not raise an error.

The code validates neither `x` nor `k`, so the model follows the code and
proves what the code returns.

Ruby's integer `/` rounds toward negative infinity. At the one division in
the service the divisor is the loop index (at least 1) and the dividend is
non-negative, so `FloorDiv` agrees with Dafny's `/` there. `Binomial` also
has a ghost out-parameter `steps`, the number of accumulation rounds. It
exists only to state the loop's iteration bound; the executable signature
returns the coefficient alone, as the Ruby method does.

## Model

| member | source | states |
|---|---|---|
| TotalIncDecService.Binomial | app/services/total_inc_dec_service.rb:31-43 | for 0 <= k <= n the result is the Pascal-rule C(n, k) and is at least 1; whenever k is not strictly between 0 and n (base cases, k > n, k < 0) the result is 1; the loop runs min(k, n - k) rounds when 0 < k < n and none otherwise (counted by a ghost out-parameter) |
| TotalIncDecService.Call | app/services/total_inc_dec_service.rb:15-27 | for x >= 0 the result is C(x+9, x) + C(x+10, x) - (10x + 1), nothing else contributes, and it is at least 1; for x < 0 the result is 1 - 10x |
| TotalIncDecService.FloorDiv | app/services/total_inc_dec_service.rb:40 | the quotient of integer division by a positive divisor is the floor: q*b <= a < q*b + b |
| TotalIncDecService.Min | app/services/total_inc_dec_service.rb:35 | the result is one of the two arguments and is no larger than either |
| Combinatorics.BinomBaseCases | app/services/total_inc_dec_service.rb:32 | C(n, 0) = 1 and C(n, n) = 1 for every n, which justifies the early return |
| Combinatorics.BinomAboveDiagonal | app/services/total_inc_dec_service.rb:29 | C(n, k) = 0 when k > n, so the reference differs from the service's 1 outside the range |
| Combinatorics.BinomFactorial | app/services/total_inc_dec_service.rb:29 | C(n, k) * k! * (n-k)! = n! for 0 <= k <= n, connecting Pascal's rule to the factorial definition in the comment |
| Combinatorics.BinomQuotient | app/services/total_inc_dec_service.rb:29 | k! * (n-k)! divides n! exactly and C(n, k) = n! / (k! * (n-k)!) |
| Combinatorics.BinomSymmetry | app/services/total_inc_dec_service.rb:34-35 | C(n, k) = C(n, n - k) for 0 <= k <= n, which justifies replacing k by min(k, n - k) |
| Combinatorics.BinomPositive | app/services/total_inc_dec_service.rb:37-42 | C(n, k) >= 1 for 0 <= k <= n |
| Combinatorics.Absorption | app/services/total_inc_dec_service.rb:38-41 | i * C(n, i) = (n - i + 1) * C(n, i - 1) for 1 <= i <= n |
| Combinatorics.ExactStep | app/services/total_inc_dec_service.rb:40 | C(n, i - 1) * (n - i + 1) is divisible by i and the quotient is exactly C(n, i), so multiply-then-divide never truncates |
| IncDecCount.TotalCountStep | app/services/total_inc_dec_service.rb:17-26 | going from x - 1 to x adds C(x+8, x) + C(x+9, x) - 10 to the count, which is at least x |
| IncDecCount.TotalCountPositive | app/services/total_inc_dec_service.rb:22-26 | the count is at least 1 for every x >= 0: C(x+9, x) + C(x+10, x) exceeds the duplicate correction 10x + 1 |
| IncDecCount.TotalCountStrictlyIncreasing | app/services/total_inc_dec_service.rb:14-27 | for 0 <= a < b the count at a is strictly smaller than the count at b |
| TotalIncDecService.CallOnTestInputs | spec/services/total_inc_dec_service_spec.rb:5-38 | running `Call` on x = 0 .. 6 yields exactly 1, 10, 100, 475, 1675, 4954 and 12952, the seven literals the test file expects |
| IncDecCount.TotalCountTable | spec/services/total_inc_dec_service_spec.rb:5-38 | the count is 1, 10, 100, 475, 1675, 4954 and 12952 for x = 0 .. 6 |

## Left out

- The Rails and RSpec harness. Only the literal input/output pairs of the
  test file are kept, as `IncDecCount.TotalCountTable` and
  `TotalIncDecService.CallOnTestInputs`.
- The object lifecycle (`initialize`, `attr_accessor :x`). `Call` takes `x`
  as a parameter, because the stored exponent is only read by `call`.
- An invalid-argument error for negative `x` or for k outside 0..n. The
  code has none, so the model returns what the code returns instead.
- Any proof that the closed form counts digit strings. That includes whether
  `10x + 1` is the right duplicate correction. The code states the formula and
  its tests; the model takes the formula as the definition of the count.

# Pell-recurrence solver for p = a/b, in Dafny

This project models `solve_for_p(a, b, max_solutions)` from `amm/pell.py`. The
function looks for positive integer pairs (k, n) for the probability p = a/b,
with c = b - a, that satisfy

    c^2 (k+1)(k+2) + a c (k+2)(n-k) = a^2 (n-k)(n-k-1).

It does not search (k, n) directly. It walks Pell vectors (x, y) instead:

- It first checks that a and b are coprime (`math.gcd(a, b) != 1` raises `ValueError`).
- It picks a seed: (3a - 2b, a) when p is above (3 - sqrt 5)/2, and (3b - 2a, -b) otherwise.
- It applies the matrix M = [[9, 20], [4, 9]] once per iteration m = 1, 2, ...; iteration m = 0 tests the seed itself.
- At each vector it recovers a candidate k = (x - a - 8c) // 5c and n = k + (a + c(k+2) + y) // 2a. Each division is guarded by an exact-remainder test.
- It keeps only candidates with k > 0, n > 0, n >= k + 2 that satisfy the identity exactly.
- It returns the first `max_solutions` kept records. It stops at that count or after m = 1000.

The model has three modules:

- `PyInt` (pyint.dfy) holds Python's `//`, `%` and `math.gcd` on unbounded integers. `//` and `%` round toward minus infinity, and the remainder takes the sign of the divisor. Dafny's own `/` and `%` are Euclidean; they are used only for non-negative operands or positive divisors, where the two conventions agree. `Gcd` is proved to be the greatest common divisor.
- `Pell` (pell.dfy) holds the vector, the matrix step as two multiply-adds, M applied m times, and the form x^2 - 5y^2 that every step keeps.
- `Solver` (solver.dfy) holds the threshold, the seed and the per-vector test `Screen`. It also holds `Solutions`, which lists in order every record found while testing m = 0 .. count - 1, and `FirstSolutions`, the part returned. The method `Scan` is the imperative loop of lines 46-85: it reassigns (x, y), appends to `solutions`, increments m and breaks at the limit, and it is proved to return `FirstSolutions`. The method `SolveForP` is the whole function: the guard, the divisions before the loop, the seed, then `Scan`. It is proved to return `FirstSolutions` for the chosen seed, or the `ValueError` (gcd guard) or `ZeroDivisionError` Python raises.

Three things come out of the proofs:

- Both seeds have the same Pell form, 4(a^2 - 3ab + b^2).
- So every tested vector has that form too.
- At a vector with that form, the identity check at lines 68-71 cannot fail once both divisibility gates pass (`IdentityFromGates`). The check is redundant, though harmless.

The model does not require a < b, a > 0 or a positive `max_solutions`; the source does not check them either. Instead, every error path is modelled, except those listed under "## Left out":

- `Err(NotCoprime)` when `math.gcd(a, b) != 1`.
- `Err(DivisionByZero)` when b == 0 (from `a / b`), when c == 0 (the `// (5 * c)` at line 32) or when a == 0 (the `// (2 * a)` at line 33). With gcd 1 these are exactly (±1, 0), (1, 1), (-1, -1) and (0, ±1).
- An empty list when `max_solutions <= 0`.

For p = 2/3 the first record is (m, k, n) = (1, 6, 13), found at the vector (40, 18) (`ExampleTwoThirds`). The smaller pair (k, n) = (1, 3) is not a solution: it fails the identity (18 ≠ 8).

## Model

| member | source | states |
|---|---|---|
| `PyInt.FloorDiv` | amm/pell.py:58-62 | Python `x // d` for either sign of d: q = floor(x/d), i.e. d q <= x < d q + d for d > 0 and d q + d < x <= d q for d < 0 |
| `PyInt.FloorMod` | amm/pell.py:57-61 | Python `x % d`: x = d (x // d) + r, with 0 <= r < d for d > 0 and d < r <= 0 for d < 0 |
| `PyInt.ExactQuotient` | amm/pell.py:57-62 | when d q = x exactly, the remainder test succeeds and `//` returns q, so each gate recovers the exact quotient |
| `PyInt.Gcd` | amm/pell.py:8 | `math.gcd(a, b)` is non-negative, is 0 exactly when a = b = 0, and otherwise divides both a and b |
| `PyInt.GcdGreatest` | amm/pell.py:8 | every positive common divisor of a and b divides `math.gcd(a, b)` |
| `PyInt.CoprimeIff` | amm/pell.py:8-9 | the guard passes (gcd = 1) exactly when a, b are not both 0 and share no divisor greater than 1 |
| `Pell.Step` | amm/pell.py:52 | one application of M = [[9, 20], [4, 9]] (line 41) keeps the Pell form x^2 - 5y^2 |
| `Pell.Iterate` | amm/pell.py:50-52 | the vector tested at iteration m is M applied m times to the seed (the seed itself at m = 0), and it has the seed's Pell form |
| `Solver.AboveThreshold` | amm/pell.py:17-19 | the seed branch `p > threshold` of line 19 as an integer test on a and b: with s = 3b - 2a, s < 0 or 5b^2 > s^2 when b > 0, and s >= 0 or 5b^2 > s^2 when b < 0 (its meaning is proved by ThresholdIsExact) |
| `Solver.ThresholdIsExact` | amm/pell.py:17-19 | for any positive real r with r^2 = 5, the integer test AboveThreshold(a, b) holds exactly when a/b > (3 - r)/2, for b of either sign |
| `Solver.Seed` | amm/pell.py:19-28 | the seed is (3a - 2b, a) above the threshold and (3b - 2a, -b) below it, and both have Pell form 4(a^2 - 3ab + b^2) |
| `Solver.Identity` | amm/pell.py:68-71 | the equation checked at lines 68-71: c^2 (k+1)(k+2) + a c (k+2)(n-k) = a^2 (n-k)(n-k-1), c = b - a |
| `Solver.Screen` | amm/pell.py:57-71 | a candidate it accepts at (x, y) satisfies 5c k = x - a - 8c and 2a (n - k) = a + c(k+2) + y, k > 0, n > 0, n >= k + 2 and the identity |
| `Solver.ScreenComplete` | amm/pell.py:57-71 | conversely, any (k, n) meeting those exact conditions at (x, y) is the candidate the gates recover and accept |
| `Solver.IdentityFromGates` | amm/pell.py:57-71 | given the Pell form of the seed, the two gate equalities alone imply the identity, so the check at line 71 never rejects |
| `Solver.TestedVectorsPassIdentity` | amm/pell.py:50-71 | at every iteration m, a candidate that passes both gates satisfies the identity |
| `Solver.Found` | amm/pell.py:72-78 | the record one index appends: at most one, and when there is one it carries that index m and an accepted (k, n) at the tested vector |
| `Solver.Solutions` | amm/pell.py:50-80 | the records the loop appends while testing m = 0 .. count - 1, in order and with no cap from max_solutions; there are at most count of them |
| `Solver.SolutionsSound` | amm/pell.py:57-78 | every record found while testing m < count has that m and an accepted (k, n) at M^m applied to the seed |
| `Solver.SolutionsIncreasing` | amm/pell.py:72-80 | records are appended in strictly increasing order of m |
| `Solver.SolutionsComplete` | amm/pell.py:57-78 | no accepted candidate at a tested m is skipped |
| `Solver.SolutionsPrefix` | amm/pell.py:50-80 | testing more iterations only appends records: the shorter list is a prefix of the longer |
| `Solver.FirstSolutions` | amm/pell.py:50-83 | the returned list never holds more than max_solutions records (none when max_solutions <= 0) |
| `Solver.FirstSolutionsSound` | amm/pell.py:57-78 | every returned record has m in [0, 1000], k > 0, n > 0, n >= k + 2, the identity, and both exact gate equalities at its vector |
| `Solver.FirstSolutionsIncreasing` | amm/pell.py:72-80 | the m values of the returned records are strictly increasing |
| `Solver.FirstSolutionsExhaustive` | amm/pell.py:50-83 | a result shorter than max_solutions holds every accepted candidate with m <= 1000: only the iteration limit stopped the search |
| `Solver.FirstSolutionsOnceFound` | amm/pell.py:50-83 | once the indices m < count have produced max_solutions records, the returned list is exactly those first max_solutions records, whatever later indices would give |
| `Solver.ScanStep` | amm/pell.py:50-83 | one pass entered with fewer than max_solutions records leaves at most max_solutions, and if the loop stops after it (m passes 1000 or the count is reached) the records are exactly the first max_solutions of all records with m <= 1000 |
| `Solver.Scan` | amm/pell.py:46-85 | the loop, which steps (x, y) by M for m > 0, appends each accepted record and stops at max_solutions records or after m = 1000, returns FirstSolutions for its seed |
| `Solver.SolveForP` | amm/pell.py:4-85 | returns Err(NotCoprime) when gcd(a, b) != 1 (line 9); with gcd 1 it returns Err(DivisionByZero) when b = 0, a = b or a = 0 (lines 12, 32, 33) and an error in no other case; otherwise it returns FirstSolutions for the seed Seed(a, b) |
| `Solver.ExampleTwoThirds` | amm/pell.py:92 | for p = 2/3 the seed is (0, 2), and testing m = 0, 1 yields exactly the record (m, k, n) = (1, 6, 13) |
| `Solver.ExampleTwoThirdsFirst` | amm/pell.py:92 | for a call like line 92's but with max_solutions = 1, `solve_for_p(2, 3, 1)`, the result is exactly the one record (m, k, n) = (1, 6, 13) |
| `Solver.ExampleOneTwentyFourth` | amm/pell.py:140 | for p = 1/24 the small-p seed (70, -24) is chosen, and testing m = 0, 1 yields no record (k = -1 at m = 0, the first gate fails at m = 1) |

## Left out

- All `print` calls, the `seed_type` strings and the progress and limit messages: output only (lines 13, 23, 28, 34-37, 79, 82).
- `Solver.SolveForP`: two exceptions for huge integers are not modelled. `a / b` at line 12 raises `OverflowError` when the quotient exceeds the float range (e.g. a = 10^400, b = 1), and the f-strings at lines 13, 34, 37 and 79 raise `ValueError` on Python 3.11 and later when an integer has more than 4300 digits. For such inputs `SolveForP` returns what the arithmetic alone gives.
- The starting k and n before the loop (lines 32-33) are only printed. Their values are not modelled; the ZeroDivisionError they can raise is.
- `Solver.Seed`: the branch uses the exact comparison of a/b with (3 - sqrt 5)/2 (see `ThresholdIsExact`) instead of the float comparison `a / b > (3 - 5**0.5) / 2`. The two differ only when a/b lies within float rounding of the threshold.
- numpy's `np.array` and `@` with `dtype=object` are modelled as the two integer multiply-adds they compute.
- The constant `"Verified": "Yes"` field of each record is dropped. A `Solution` holds m, k and n.
- The default `max_solutions=10`: Dafny has no default arguments, so callers pass the value.
- Non-int arguments are outside the model, whose parameters are integers. For a and b, `math.gcd` raises `TypeError`. A non-int `max_solutions` (a float such as 2.5 or `float('inf')`) passes the guard and only changes the loop bound; the model takes `max_solutions` as an int.
- The `__main__` driver and its example calls (lines 88-144) are I/O. Two of the inputs appear as example lemmas.
- Whether the records found are all solutions of the identity, and why this matrix and these moduli are the right ones: the code claims neither, it only filters.

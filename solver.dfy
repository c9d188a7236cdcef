/**
 The solver `solve_for_p(a, b, max_solutions)`: for p = a / b it walks the
 Pell vectors seed, M seed, M^2 seed, ... (m = 0 .. 1000), recovers a
 candidate (k, n) from each through two exact divisibility gates, keeps the
 candidates that are positive and satisfy
     c^2 (k+1)(k+2) + a c (k+2)(n-k) == a^2 (n-k)(n-k-1),   c = b - a,
 and returns the first max_solutions of them in discovery order.
 */
module Solver {
  import opened PyInt
  import opened Pell

  datatype Option<T> = None | Some(value: T)

  /** The exceptions the solver can raise before its loop. */
  datatype Error =
    | NotCoprime       // ValueError: a and b must be relatively prime
    | DivisionByZero   // ZeroDivisionError from a / b, or from // by 5c or 2a

  datatype Result<T> = Ok(value: T) | Err(error: Error)

  /** A returned record: the iteration index and the recovered (k, n). */
  datatype Solution = Solution(m: nat, k: int, n: int)

  datatype Candidate = Candidate(k: int, n: int)

  /** The last iteration index the loop tests. */
  const IterationLimit: nat := 1000

  /**
   Exact form of `a / b > (3 - sqrt 5) / 2`, with s = 3b - 2a:
   for b > 0 it is sqrt(5) b > s, for b < 0 it is sqrt(5) b < s.
   */
  predicate AboveThreshold(a: int, b: int)
    requires b != 0
  {
    var s := 3 * b - 2 * a;
    if b > 0 then s < 0 || 5 * b * b > s * s
    else s >= 0 || 5 * b * b > s * s
  }

  /** For any positive square root of 5, AboveThreshold is the comparison of a / b with the threshold. */
  lemma ThresholdIsExact(a: int, b: int, root5: real)
    requires b != 0 && root5 > 0.0 && root5 * root5 == 5.0
    ensures AboveThreshold(a, b) <==> (a as real) / (b as real) > (3.0 - root5) / 2.0
  {
    var A, B := a as real, b as real;
    var s, t := 3.0 * B - 2.0 * A, root5 * B;
    CastThreshold(a, b);
    RootSquare(root5, B);
    DivCompare(A, B, (3.0 - root5) / 2.0);
    TauTimes(root5, B);
    SignedRootCompare(s, t);
  }

  /** The integer quantities of AboveThreshold, cast to real. */
  lemma CastThreshold(a: int, b: int)
    ensures (3 * b - 2 * a) as real == 3.0 * (b as real) - 2.0 * (a as real)
    ensures ((3 * b - 2 * a) * (3 * b - 2 * a)) as real
         == (3.0 * (b as real) - 2.0 * (a as real)) * (3.0 * (b as real) - 2.0 * (a as real))
    ensures (5 * b * b) as real == 5.0 * ((b as real) * (b as real))
  {
    CastProduct(3 * b - 2 * a, 3 * b - 2 * a);
    CastProduct(b, b);
    CastProduct(5, b * b);
    assert 5 * b * b == 5 * (b * b);
  }

  /** Casting to real commutes with multiplication. */
  lemma CastProduct(x: int, y: int)
    ensures (x * y) as real == (x as real) * (y as real)
  {}

  lemma RootSquare(r: real, d: real)
    requires r * r == 5.0
    ensures (r * d) * (r * d) == 5.0 * (d * d)
  {
    assert (r * d) * (r * d) == (r * r) * (d * d);
  }

  /** Comparing a quotient with q is comparing the dividend with q d, flipped for d < 0. */
  lemma DivCompare(x: real, d: real, q: real)
    requires d != 0.0
    ensures d > 0.0 ==> (x / d > q <==> x > q * d)
    ensures d < 0.0 ==> (x / d > q <==> x < q * d)
  {
    var p := x / d;
    assert p * d == x;
    ScaleCompare(p, q, d);
  }

  /** Multiplying both sides by d keeps (d > 0) or flips (d < 0) a comparison. */
  lemma ScaleCompare(p: real, q: real, d: real)
    requires d != 0.0
    ensures d > 0.0 ==> (p > q <==> p * d > q * d)
    ensures d < 0.0 ==> (p > q <==> p * d < q * d)
  {}

  lemma TauTimes(r: real, d: real)
    ensures (3.0 - r) / 2.0 * d == (3.0 * d - r * d) / 2.0
  {}

  /**
   Comparing s with t, where t is known only through its sign and its square:
   for t > 0, s < t exactly when s is negative or s^2 < t^2; for t < 0,
   s > t exactly when s is non-negative or s^2 < t^2.
   */
  lemma SignedRootCompare(s: real, t: real)
    ensures t > 0.0 ==> (s < t <==> s < 0.0 || s * s < t * t)
    ensures t < 0.0 ==> (s > t <==> s >= 0.0 || s * s < t * t)
  {
    if t > 0.0 && s >= 0.0 {
      SquareMonotone(t, s);
    }
    if t < 0.0 && s < 0.0 {
      SquareMonotone(-t, -s);
      assert (-t) * (-t) == t * t;
      assert (-s) * (-s) == s * s;
    }
  }

  /** Squaring is monotone on non-negative reals. */
  lemma SquareMonotone(t: real, s: real)
    ensures 0.0 <= t <= s ==> t * t <= s * s
    ensures 0.0 <= s < t ==> s * s < t * t
  {
    if 0.0 <= t <= s {
      assert s * s - t * t == (s - t) * (s + t);
      ProductSign(s - t, s + t);
    }
    if 0.0 <= s < t {
      var d, e := t - s, t + s;
      assert d > 0.0 && e > 0.0;
      ProductSign(d, e);
      assert d * e > 0.0;
      assert t * t - s * s == d * e;
    }
  }

  lemma ProductSign(x: real, y: real)
    ensures x >= 0.0 && y >= 0.0 ==> x * y >= 0.0
    ensures x > 0.0 && y > 0.0 ==> x * y > 0.0
  {}

  /**
   The seed: (3a - 2b, a) above the threshold and (3b - 2a, -b) below it.
   Both have the same Pell form, 4 (a^2 - 3ab + b^2).
   */
  function Seed(a: int, b: int): (r: Vec)
    requires b != 0
    ensures Norm(r) == 4 * (a * a - 3 * a * b + b * b)
    ensures AboveThreshold(a, b) ==> r.y == a && r.x == 3 * a - 2 * b
    ensures !AboveThreshold(a, b) ==> r.y == -b && r.x == 3 * b - 2 * a
  {
    if AboveThreshold(a, b) then Vec(3 * a - 2 * b, a) else Vec(3 * b - 2 * a, -b)
  }

  /** The verification identity, with c = b - a. */
  predicate Identity(a: int, b: int, k: int, n: int)
  {
    var c := b - a;
    c * c * (k + 1) * (k + 2) + a * c * (k + 2) * (n - k) == a * a * (n - k) * (n - k - 1)
  }

  /**
   What an accepted (k, n) satisfies at vector v, in exact integer terms:
   both gates divide exactly, the positivity filter passes, the identity holds.
   */
  predicate Accepted(a: int, b: int, v: Vec, k: int, n: int)
  {
    var c := b - a;
    && 5 * c * k == v.x - a - 8 * c
    && 2 * a * (n - k) == a + c * (k + 2) + v.y
    && k > 0 && n > 0 && n >= k + 2
    && Identity(a, b, k, n)
  }

  /** One loop step's test of vector v: the two gates, the positivity filter and the identity. */
  function Screen(a: int, b: int, v: Vec): (r: Option<Candidate>)
    requires a != 0 && b != a
    ensures r.Some? ==> Accepted(a, b, v, r.value.k, r.value.n)
  {
    var c := b - a;
    if FloorMod(v.x - a - 8 * c, 5 * c) != 0 then None
    else
      var k := FloorDiv(v.x - a - 8 * c, 5 * c);
      if FloorMod(a + c * (k + 2) + v.y, 2 * a) != 0 then None
      else
        var n := k + FloorDiv(a + c * (k + 2) + v.y, 2 * a);
        if k > 0 && n > 0 && n >= k + 2 && Identity(a, b, k, n) then Some(Candidate(k, n))
        else None
  }

  /** Conversely, any (k, n) with the accepted equalities at v is what Screen recovers. */
  lemma ScreenComplete(a: int, b: int, v: Vec, k: int, n: int)
    requires a != 0 && b != a
    requires Accepted(a, b, v, k, n)
    ensures Screen(a, b, v) == Some(Candidate(k, n))
  {
    var c := b - a;
    ExactQuotient(v.x - a - 8 * c, 5 * c, k);
    ExactQuotient(a + c * (k + 2) + v.y, 2 * a, n - k);
  }

  /**
   The identity check never rejects at a tested vector: once both gates
   divide exactly, the Pell form of the seed forces the identity.
   */
  lemma IdentityFromGates(a: int, b: int, v: Vec, k: int, n: int)
    requires Norm(v) == 4 * (a * a - 3 * a * b + b * b)
    requires 5 * (b - a) * k == v.x - a - 8 * (b - a)
    requires 2 * a * (n - k) == a + (b - a) * (k + 2) + v.y
    ensures Identity(a, b, k, n)
  {
    var c, u, p := b - a, n - k, k + 2;
    var X, Y := a + c * (5 * p - 2), a * (2 * u - 1) - c * p;
    Regroup(a, c, k, u);
    assert v.x == X && v.y == Y;
    assert Norm(v) == X * X - 5 * (Y * Y);
    PellFormExpansion(a, c, p, u);
    assert a * a - 3 * a * b + b * b == c * c - a * c - a * a;
  }

  /** The Pell form of (a + c (5p - 2), a (2u - 1) - c p), expanded. */
  lemma PellFormExpansion(a: int, c: int, p: int, u: int)
    ensures (a + c * (5 * p - 2)) * (a + c * (5 * p - 2)) - 5 * ((a * (2 * u - 1) - c * p) * (a * (2 * u - 1) - c * p))
            == 20 * (c * c * (p * p - p) + a * c * p * u - a * a * (u * u - u)) + 4 * (c * c - a * c - a * a)
  {
  }

  lemma Regroup(a: int, c: int, k: int, u: int)
    ensures 5 * c * k + a + 8 * c == a + c * (5 * (k + 2) - 2)
    ensures 2 * a * u - a - c * (k + 2) == a * (2 * u - 1) - c * (k + 2)
    ensures c * c * (k + 1) * (k + 2) == c * c * ((k + 2) * (k + 2) - (k + 2))
    ensures a * a * u * (u - 1) == a * a * (u * u - u)
  {
  }

  /** Every vector the loop tests yields the identity whenever both gates pass. */
  lemma TestedVectorsPassIdentity(a: int, b: int, m: nat, k: int, n: int)
    requires b != 0
    requires 5 * (b - a) * k == Iterate(Seed(a, b), m).x - a - 8 * (b - a)
    requires 2 * a * (n - k) == a + (b - a) * (k + 2) + Iterate(Seed(a, b), m).y
    ensures Identity(a, b, k, n)
  {
    IdentityFromGates(a, b, Iterate(Seed(a, b), m), k, n);
  }

  /** The records the loop appends while testing m = 0 .. count - 1, in that order. */
  function Solutions(a: int, b: int, seed: Vec, count: nat): (r: seq<Solution>)
    requires a != 0 && b != a
    ensures |r| <= count
  {
    if count == 0 then []
    else
      var m := count - 1;
      Solutions(a, b, seed, m) + Found(a, b, m, Iterate(seed, m))
  }

  /** The record, if any, that testing index m at vector v appends. */
  function Found(a: int, b: int, m: nat, v: Vec): (r: seq<Solution>)
    requires a != 0 && b != a
    ensures |r| <= 1
    ensures |r| == 1 ==> r[0].m == m && Accepted(a, b, v, r[0].k, r[0].n)
  {
    match Screen(a, b, v)
    case Some(cand) => [Solution(m, cand.k, cand.n)]
    case None => []
  }

  /** Every record names an index below count and an accepted (k, n) at that index's vector. */
  lemma {:induction false} SolutionsSound(a: int, b: int, seed: Vec, count: nat, i: nat)
    requires a != 0 && b != a
    requires i < |Solutions(a, b, seed, count)|
    ensures var s := Solutions(a, b, seed, count)[i];
            s.m < count && Accepted(a, b, Iterate(seed, s.m), s.k, s.n)
  {
    var prev := Solutions(a, b, seed, count - 1);
    if i < |prev| {
      SolutionsSound(a, b, seed, count - 1, i);
    }
  }

  /** The records are in strictly increasing order of m. */
  lemma {:induction false} SolutionsIncreasing(a: int, b: int, seed: Vec, count: nat, i: nat, j: nat)
    requires a != 0 && b != a
    requires i < j < |Solutions(a, b, seed, count)|
    ensures Solutions(a, b, seed, count)[i].m < Solutions(a, b, seed, count)[j].m
  {
    var prev := Solutions(a, b, seed, count - 1);
    if j < |prev| {
      SolutionsIncreasing(a, b, seed, count - 1, i, j);
    } else {
      SolutionsSound(a, b, seed, count - 1, i);
    }
  }

  /** No accepted candidate below count is skipped. */
  lemma {:induction false} SolutionsComplete(a: int, b: int, seed: Vec, count: nat, m: nat, k: int, n: int)
    requires a != 0 && b != a
    requires m < count && Accepted(a, b, Iterate(seed, m), k, n)
    ensures Solution(m, k, n) in Solutions(a, b, seed, count)
  {
    if m < count - 1 {
      SolutionsComplete(a, b, seed, count - 1, m, k, n);
    } else {
      ScreenComplete(a, b, Iterate(seed, m), k, n);
    }
  }

  /** Testing more indices only appends: the shorter scan is a prefix of the longer. */
  lemma {:induction false} SolutionsPrefix(a: int, b: int, seed: Vec, i: nat, j: nat)
    requires a != 0 && b != a && i <= j
    ensures |Solutions(a, b, seed, i)| <= |Solutions(a, b, seed, j)|
    ensures Solutions(a, b, seed, i) == Solutions(a, b, seed, j)[..|Solutions(a, b, seed, i)|]
  {
    if i < j {
      SolutionsPrefix(a, b, seed, i, j - 1);
    }
  }

  /**
   The records of m = 0 .. 1000 cut to the first max_solutions of them: what
   `solve_for_p` returns from a seed once its inputs have passed the checks.
   */
  function FirstSolutions(a: int, b: int, seed: Vec, maxSolutions: int): (r: seq<Solution>)
    requires a != 0 && b != a
    ensures |r| <= if maxSolutions < 0 then 0 else maxSolutions
  {
    var all := Solutions(a, b, seed, IterationLimit + 1);
    if maxSolutions <= 0 then []
    else if maxSolutions < |all| then all[..maxSolutions]
    else all
  }

  /**
   Every returned record has m in [0, 1000], positive k and n with n >= k + 2,
   the identity, and the two exact gate equalities at M^m applied to the seed.
   */
  lemma FirstSolutionsSound(a: int, b: int, seed: Vec, maxSolutions: int, i: nat)
    requires a != 0 && b != a
    requires i < |FirstSolutions(a, b, seed, maxSolutions)|
    ensures var s := FirstSolutions(a, b, seed, maxSolutions)[i];
            var v := Iterate(seed, s.m);
            && s.m <= IterationLimit
            && 5 * (b - a) * s.k == v.x - a - 8 * (b - a)
            && 2 * a * (s.n - s.k) == a + (b - a) * (s.k + 2) + v.y
            && s.k > 0 && s.n > 0 && s.n >= s.k + 2
            && Identity(a, b, s.k, s.n)
  {
    SolutionsSound(a, b, seed, IterationLimit + 1, i);
  }

  /** The m values of the returned records are strictly increasing. */
  lemma FirstSolutionsIncreasing(a: int, b: int, seed: Vec, maxSolutions: int, i: nat, j: nat)
    requires a != 0 && b != a
    requires i < j < |FirstSolutions(a, b, seed, maxSolutions)|
    ensures FirstSolutions(a, b, seed, maxSolutions)[i].m < FirstSolutions(a, b, seed, maxSolutions)[j].m
  {
    SolutionsIncreasing(a, b, seed, IterationLimit + 1, i, j);
  }

  /**
   A result shorter than max_solutions holds every accepted candidate with
   m <= 1000: the search stopped only at the iteration limit.
   */
  lemma FirstSolutionsExhaustive(a: int, b: int, seed: Vec, maxSolutions: int, m: nat, k: int, n: int)
    requires a != 0 && b != a
    requires m <= IterationLimit && Accepted(a, b, Iterate(seed, m), k, n)
    requires |FirstSolutions(a, b, seed, maxSolutions)| < maxSolutions
    ensures Solution(m, k, n) in FirstSolutions(a, b, seed, maxSolutions)
  {
    SolutionsComplete(a, b, seed, IterationLimit + 1, m, k, n);
  }

  /**
   Once testing m < count has found max_solutions records, the returned list
   is those first max_solutions records, whatever later indices hold.
   */
  lemma FirstSolutionsOnceFound(a: int, b: int, seed: Vec, maxSolutions: int, count: nat)
    requires a != 0 && b != a && 0 < maxSolutions && count <= IterationLimit + 1
    requires |Solutions(a, b, seed, count)| >= maxSolutions
    ensures FirstSolutions(a, b, seed, maxSolutions) == Solutions(a, b, seed, count)[..maxSolutions]
  {
    SolutionsPrefix(a, b, seed, count, IterationLimit + 1);
  }

  /**
   One pass of the loop body at index m, entered with fewer than
   max_solutions records: it appends at most one record, and when the loop
   stops after it (limit reached or max_solutions records) the records are
   FirstSolutions.
   */
  lemma ScanStep(a: int, b: int, seed: Vec, maxSolutions: int, m: nat)
    requires a != 0 && b != a && m <= IterationLimit
    requires |Solutions(a, b, seed, m)| < maxSolutions
    ensures |Solutions(a, b, seed, m + 1)| <= maxSolutions
    ensures m + 1 > IterationLimit || |Solutions(a, b, seed, m + 1)| >= maxSolutions ==>
              Solutions(a, b, seed, m + 1) == FirstSolutions(a, b, seed, maxSolutions)
  {
    SolutionsPrefix(a, b, seed, m + 1, IterationLimit + 1);
  }

  /**
   The search loop of `solve_for_p`, lines 46-85: from the seed, test
   m = 0, 1, ... until max_solutions records are found or m = 1000 was tested.
   */
  method Scan(a: int, b: int, seed: Vec, maxSolutions: int) returns (solutions: seq<Solution>)
    requires a != 0 && b != a
    ensures solutions == FirstSolutions(a, b, seed, maxSolutions)
  {
    var x, y := seed.x, seed.y;
    solutions := [];
    var m: nat := 0;
    while |solutions| < maxSolutions
      invariant m <= IterationLimit
      invariant m == 0 ==> Vec(x, y) == seed
      invariant m > 0 ==> Vec(x, y) == Iterate(seed, m - 1)
      invariant solutions == Solutions(a, b, seed, m)
      invariant |solutions| >= maxSolutions ==> solutions == FirstSolutions(a, b, seed, maxSolutions)
      decreases IterationLimit - m
    {
      if m > 0 {
        x, y := 9 * x + 20 * y, 4 * x + 9 * y;
      }
      ghost var tested := Iterate(seed, m);
      assert Vec(x, y) == tested;
      var found := Screen(a, b, Vec(x, y));
      if found.Some? {
        solutions := solutions + [Solution(m, found.value.k, found.value.n)];
      }
      ScanStep(a, b, seed, maxSolutions, m);
      m := m + 1;
      assert tested == Iterate(seed, m - 1);
      if m > IterationLimit {
        break;
      }
    }
  }

  /**
   `solve_for_p(a, b, max_solutions)`: the coprimality guard, the divisions
   before the loop, the seed choice, then the search.
   */
  method SolveForP(a: int, b: int, maxSolutions: int) returns (r: Result<seq<Solution>>)
    ensures Gcd(a, b) != 1 ==> r == Err(NotCoprime)
    ensures Gcd(a, b) == 1 ==> (r.Err? <==> b == 0 || a == b || a == 0)
    ensures Gcd(a, b) == 1 && (b == 0 || a == b || a == 0) ==> r == Err(DivisionByZero)
    ensures r.Ok? ==> a != 0 && b != 0 && a != b && r.value == FirstSolutions(a, b, Seed(a, b), maxSolutions)
  {
    if Gcd(a, b) != 1 {
      return Err(NotCoprime);
    }
    var c := b - a;
    if b == 0 {
      // p = a / b divides by zero
      return Err(DivisionByZero);
    }
    var seed := Seed(a, b);
    if c == 0 || a == 0 {
      // the starting k divides by 5 * c, the starting n by 2 * a
      return Err(DivisionByZero);
    }
    var solutions := Scan(a, b, seed, maxSolutions);
    return Ok(solutions);
  }

  /** For p = 2/3 the large-p seed (0, 2) is chosen and the first record is (m, k, n) = (1, 6, 13). */
  lemma ExampleTwoThirds()
    ensures Seed(2, 3) == Vec(0, 2)
    ensures Solutions(2, 3, Seed(2, 3), 2) == [Solution(1, 6, 13)]
  {
    assert Iterate(Vec(0, 2), 1) == Vec(40, 18);
    assert Screen(2, 3, Vec(0, 2)) == None;
    ExactQuotient(30, 5, 6);
    ExactQuotient(28, 4, 7);
    assert Screen(2, 3, Vec(40, 18)) == Some(Candidate(6, 13));
  }

  /** So `solve_for_p(2, 3, 1)` returns that record alone. */
  lemma ExampleTwoThirdsFirst()
    ensures FirstSolutions(2, 3, Vec(0, 2), 1) == [Solution(1, 6, 13)]
  {
    ExampleTwoThirds();
    FirstSolutionsOnceFound(2, 3, Vec(0, 2), 1, 2);
  }

  /**
   For p = 1/24 the small-p seed (3b - 2a, -b) = (70, -24) is chosen; m = 0
   passes both gates but gives k = -1, and m = 1, at (150, 64), fails the
   first gate, so testing m = 0, 1 yields no record.
   */
  lemma ExampleOneTwentyFourth()
    ensures Seed(1, 24) == Vec(70, -24)
    ensures Solutions(1, 24, Seed(1, 24), 2) == []
  {
    assert Iterate(Vec(70, -24), 1) == Vec(150, 64);
    ExactQuotient(-115, 115, -1);
    ExactQuotient(0, 2, 0);
    assert Screen(1, 24, Vec(70, -24)) == None;
    assert FloorMod(-35, 115) == 80;
    assert Screen(1, 24, Vec(150, 64)) == None;
  }
}

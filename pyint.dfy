/**
 Python's integer operations used by the solver, on unbounded integers:
 floor division `//`, the floor remainder `%` (whose sign follows the divisor)
 and `math.gcd` (always non-negative, gcd(0, 0) == 0).
 Dafny's own `/` and `%` are Euclidean; they are used only for non-negative
 operands or positive divisors below, where the two conventions agree.
 */
module PyInt {

  function Abs(x: int): (r: nat)
    ensures r == x || r == -x
  {
    if x < 0 then -x else x
  }

  /** Python's `x // d`: the largest q with q <= x / d (as a rational). */
  function FloorDiv(x: int, d: int): (q: int)
    requires d != 0
    ensures d > 0 ==> d * q <= x < d * q + d
    ensures d < 0 ==> d * q + d < x <= d * q
  {
    if d > 0 then x / d
    else
      var e := -d;
      var q := (-x) / e;
      assert e * q <= -x < e * q + e;
      assert d * q == -(e * q);
      q
  }

  /** Python's `x % d`: what is left after `x // d`; it has the sign of d. */
  function FloorMod(x: int, d: int): (r: int)
    requires d != 0
    ensures x == d * FloorDiv(x, d) + r
    ensures d > 0 ==> 0 <= r < d
    ensures d < 0 ==> d < r <= 0
  {
    x - d * FloorDiv(x, d)
  }

  /** A non-zero multiple of d is at least as large as d in magnitude. */
  lemma MultipleMagnitude(d: int, t: int)
    ensures t != 0 ==> Abs(d * t) >= Abs(d)
  {
    if t >= 1 {
      assert d * t == d * (t - 1) + d;
      if d >= 0 { assert d * (t - 1) >= 0; } else { assert d * (t - 1) <= 0; }
    } else if t <= -1 {
      assert d * t == d * (t + 1) - d;
      if d >= 0 { assert d * (t + 1) <= 0; } else { assert d * (t + 1) >= 0; }
    }
  }

  /**
   When d divides x exactly, Python's `%` gives 0 and `//` gives the exact
   quotient; so a zero remainder test followed by `//` recovers q from d * q.
   */
  lemma ExactQuotient(x: int, d: int, q: int)
    requires d != 0 && d * q == x
    ensures FloorMod(x, d) == 0 && FloorDiv(x, d) == q
  {
    var q0, r0 := FloorDiv(x, d), FloorMod(x, d);
    assert d * (q0 - q) == d * q0 - d * q;
    assert d * (q0 - q) == -r0;
    MultipleMagnitude(d, q0 - q);
  }

  /** Euclidean division by a positive divisor is unique. */
  lemma DivModUnique(x: int, d: int, q: int, r: int)
    requires d > 0 && x == d * q + r && 0 <= r < d
    ensures x / d == q && x % d == r
  {
    var q0, r0 := x / d, x % d;
    assert x == d * q0 + r0 && 0 <= r0 < d;
    assert d * (q0 - q) == d * q0 - d * q;
    assert d * (q0 - q) == r - r0;
    MultipleMagnitude(d, q0 - q);
    assert q0 == q;
  }

  lemma ModOfMultiplePlus(d: int, t: int, r: int)
    requires d > 0
    ensures (d * t + r) % d == r % d
  {
    assert r == d * (r / d) + r % d;
    assert d * t + r == d * (t + r / d) + r % d;
    DivModUnique(d * t + r, d, t + r / d, r % d);
  }

  lemma ModOfNegation(x: int, d: int)
    requires d > 0
    ensures (-x) % d == 0 <==> x % d == 0
  {
    if x % d == 0 {
      assert x == d * (x / d);
      assert -x == d * (-(x / d)) + 0;
      DivModUnique(-x, d, -(x / d), 0);
    }
    if (-x) % d == 0 {
      assert -x == d * ((-x) / d);
      assert x == d * (-((-x) / d)) + 0;
      DivModUnique(x, d, -((-x) / d), 0);
    }
  }

  /** One Euclid step keeps the common divisors: d | x, d | y iff d | y, d | x mod y. */
  lemma EuclidStep(x: nat, y: nat, d: int)
    requires y > 0 && d > 0 && y % d == 0
    ensures x % d == 0 <==> (x % y) % d == 0
  {
    var q, t := x / y, y / d;
    assert y == d * t;
    assert x == y * q + x % y;
    assert y * q == d * (t * q);
    ModOfMultiplePlus(d, t * q, x % y);
  }

  function GcdNat(x: nat, y: nat): nat
    decreases y
  {
    if y == 0 then x else GcdNat(y, x % y)
  }

  /** Python's `math.gcd(a, b)`. */
  function Gcd(a: int, b: int): (g: nat)
    ensures g == 0 <==> a == 0 && b == 0
    ensures g > 0 ==> a % g == 0 && b % g == 0
  {
    var g := GcdNat(Abs(a), Abs(b));
    GcdNatDivides(Abs(a), Abs(b));
    if g > 0 then (ModOfNegation(a, g); ModOfNegation(b, g); g) else g
  }

  lemma {:induction false} GcdNatDivides(x: nat, y: nat)
    ensures GcdNat(x, y) == 0 <==> x == 0 && y == 0
    ensures GcdNat(x, y) > 0 ==> x % GcdNat(x, y) == 0 && y % GcdNat(x, y) == 0
    decreases y
  {
    if y > 0 {
      var g := GcdNat(y, x % y);
      GcdNatDivides(y, x % y);
      assert g > 0;
      EuclidStep(x, y, g);
    }
  }

  lemma {:induction false} GcdNatGreatest(x: nat, y: nat, d: int)
    requires d > 0 && x % d == 0 && y % d == 0
    ensures GcdNat(x, y) % d == 0
    decreases y
  {
    if y > 0 {
      EuclidStep(x, y, d);
      GcdNatGreatest(y, x % y, d);
    }
  }

  /** Every positive common divisor of a and b divides Gcd(a, b). */
  lemma GcdGreatest(a: int, b: int, d: int)
    requires d > 0 && a % d == 0 && b % d == 0
    ensures Gcd(a, b) % d == 0
  {
    ModOfNegation(a, d);
    ModOfNegation(b, d);
    GcdNatGreatest(Abs(a), Abs(b), d);
  }

  /**
   The guard `math.gcd(a, b) != 1` rejects exactly the pairs that are both
   zero or share a divisor greater than one.
   */
  lemma CoprimeIff(a: int, b: int)
    ensures Gcd(a, b) == 1 <==> (a != 0 || b != 0) && forall d :: d > 1 ==> !(a % d == 0 && b % d == 0)
  {
    var g := Gcd(a, b);
    forall d | d > 1 && a % d == 0 && b % d == 0 ensures g != 1 {
      CommonDivisorBlocks(a, b, d);
    }
    if g != 1 && g != 0 {
      assert g > 1 && a % g == 0 && b % g == 0;
    }
  }

  /** A common divisor greater than one rules out gcd 1. */
  lemma CommonDivisorBlocks(a: int, b: int, d: int)
    requires d > 1 && a % d == 0 && b % d == 0
    ensures Gcd(a, b) != 1
  {
    GcdGreatest(a, b, d);
    DivModUnique(1, d, 0, 1);
  }
}

/**
 * The Fahrenheit to Celsius conversion `round((F - 32) * 5 / 9)` on an
 * integer `F`, in exact integer arithmetic.
 */
module Temperature {

  /**
   * Python's built-in `round` applied to the exact quotient `n / d`: the
   * nearest integer, and on a tie the even one.
   */
  function RoundHalfEven(n: int, d: int): (r: int)
    requires d > 0
    ensures -d <= 2 * (n - d * r) <= d
    ensures (2 * (n - d * r) == d || 2 * (n - d * r) == -d) ==> r % 2 == 0
  {
    var q, m := n / d, n % d;
    assert n - d * (q + 1) == m - d;
    if 2 * m < d then q
    else if 2 * m > d then q + 1
    else if q % 2 == 0 then q
    else q + 1
  }

  /**
   * Rounding of `n / d` half away from zero, the other common convention:
   * the nearest integer, and on a tie the one of larger magnitude.
   */
  function RoundHalfAway(n: int, d: int): (r: int)
    requires d > 0
    ensures -d <= 2 * (n - d * r) <= d
    ensures 2 * (n - d * r) == d ==> n < 0
    ensures 2 * (n - d * r) == -d ==> n > 0
  {
    var q, m := n / d, n % d;
    assert n - d * (q + 1) == m - d;
    if 2 * m < d then q
    else if 2 * m > d then q + 1
    else if n > 0 then q + 1
    else q
  }

  /** At most one integer is within half of `d` of `n` on both sides strictly. */
  lemma NearestUnique(n: int, d: int, r1: int, r2: int)
    requires d > 0
    requires -d < 2 * (n - d * r1) < d
    requires -d <= 2 * (n - d * r2) <= d
    ensures r1 == r2
  {
    var k := r1 - r2;
    assert d * r1 == d * r2 + d * k;
  }

  /**
   * The Celsius value the source prints for an integer Fahrenheit `f`: the
   * integer nearest to `5 (f - 32) / 9`. It is never a tie: `10 (f - 32)`
   * is even, so it is never an odd multiple of 9 away from `18 c`.
   */
  function Celsius(f: int): (c: int)
    ensures -9 < 18 * c - 10 * (f - 32) < 9
  {
    var x := f - 32;
    var c, m := (10 * x + 9) / 18, (10 * x + 9) % 18;
    assert 10 * x + 9 == 18 * c + m;
    assert m == 2 * (5 * x - 9 * c) + 9;
    c
  }

  /** The exact-integer formula is Python's `round((f - 32) * 5 / 9)`. */
  lemma CelsiusIsPythonRound(f: int)
    ensures Celsius(f) == RoundHalfEven(5 * (f - 32), 9)
  {
    NearestUnique(5 * (f - 32), 9, Celsius(f), RoundHalfEven(5 * (f - 32), 9));
  }

  /** With no ties, rounding half away from zero agrees as well. */
  lemma CelsiusRoundingModeIrrelevant(f: int)
    ensures RoundHalfAway(5 * (f - 32), 9) == Celsius(f)
  {
    NearestUnique(5 * (f - 32), 9, Celsius(f), RoundHalfAway(5 * (f - 32), 9));
  }

  /** A warmer day never prints a colder Celsius value. */
  lemma CelsiusMonotone(f: int, g: int)
    requires f <= g
    ensures Celsius(f) <= Celsius(g)
  {
    var cf, cg := Celsius(f), Celsius(g);
    assert 18 * cf < 10 * (f - 32) + 9 <= 10 * (g - 32) + 9 < 18 * cg + 18;
  }

  /** Worked conversions; 33°F is 0.556°C and rounds up. */
  lemma CelsiusFixtures()
    ensures Celsius(32) == 0 && Celsius(68) == 20 && Celsius(-4) == -20
    ensures Celsius(98) == 37 && Celsius(33) == 1 && Celsius(50) == 10
  {
  }
}

/**
 * Decimal rounding to seven significant digits with ties to the even neighbour: the
 * MathContext.DECIMAL32 context the service divides with when it derives an inverse rate.
 * Values are exact rationals; a positive x is written as m * 10^e with a coefficient m in
 * [10^6, 10^7), m is rounded to an integer, and the result is scaled back.
 */
module Decimal32 {

  /** Smallest seven-digit coefficient, 10^6. */
  const MinCoefficient: real := 1000000.0
  /** First eight-digit coefficient, 10^7. */
  const CoefficientLimit: real := 10000000.0
  /** Bound on the error of a seven-digit rounding relative to the magnitude: 5 * 10^-7. */
  const RelativeError: real := 0.0000005

  function Abs(x: real): real
  {
    if x < 0.0 then -x else x
  }

  /** 10^e for any integer e, exactly. */
  function Pow10(e: int): (p: real)
    ensures p > 0.0
    decreases if e < 0 then -e else e
  {
    if e == 0 then 1.0
    else if e > 0 then 10.0 * Pow10(e - 1)
    else Pow10(e + 1) / 10.0
  }

  /** The decimal value with coefficient m and exponent e, m * 10^e. */
  function Scaled(m: real, e: int): real
  {
    m * Pow10(e)
  }

  /** Moving one digit from the coefficient into the exponent keeps the value, and shrinks the coefficient's integer part. */
  lemma DropDigit(m: real, e: int)
    requires m >= CoefficientLimit
    ensures Scaled(m / 10.0, e + 1) == Scaled(m, e)
    ensures (m / 10.0).Floor < m.Floor
  {
  }

  /** Moving one digit from the exponent into the coefficient keeps the value, and shrinks 10^6 / m. */
  lemma AddDigit(m: real, e: int)
    requires 0.0 < m < MinCoefficient
    ensures Scaled(m * 10.0, e - 1) == Scaled(m, e)
    ensures (MinCoefficient / (m * 10.0)).Floor < (MinCoefficient / m).Floor
  {
    var p := Pow10(e - 1);
    assert Pow10(e) == 10.0 * p;
    assert (m * 10.0) * p == m * (10.0 * p);
    var y := MinCoefficient / m;
    assert y > 1.0 by {
      assert y * m == MinCoefficient;
    }
    assert MinCoefficient / (m * 10.0) == y / 10.0;
    assert y / 10.0 < y.Floor as real;
  }

  /** Divides a coefficient of eight or more digits by ten until seven digits remain. */
  function ScaleDown(m: real, e: int): (r: (real, int))
    requires m >= MinCoefficient
    ensures MinCoefficient <= r.0 < CoefficientLimit
    ensures Scaled(r.0, r.1) == Scaled(m, e)
    decreases m.Floor
  {
    if m < CoefficientLimit then (m, e)
    else
      DropDigit(m, e);
      ScaleDown(m / 10.0, e + 1)
  }

  /** Multiplies a coefficient of fewer than seven integer digits by ten until it has seven. */
  function ScaleUp(m: real, e: int): (r: (real, int))
    requires 0.0 < m < CoefficientLimit
    ensures MinCoefficient <= r.0 < CoefficientLimit
    ensures Scaled(r.0, r.1) == Scaled(m, e)
    decreases (MinCoefficient / m).Floor
  {
    if m >= MinCoefficient then (m, e)
    else
      AddDigit(m, e);
      ScaleUp(m * 10.0, e - 1)
  }

  /** Writes a positive x as m * 10^e with a seven-digit coefficient m. */
  function Normalize(x: real): (r: (real, int))
    requires x > 0.0
    ensures MinCoefficient <= r.0 < CoefficientLimit
    ensures Scaled(r.0, r.1) == x
  {
    assert Scaled(x, 0) == x;
    if x >= MinCoefficient then ScaleDown(x, 0) else ScaleUp(x, 0)
  }

  /** Rounds to the nearest integer, ties to the even one (RoundingMode.HALF_EVEN). */
  function RoundHalfEven(m: real): (n: int)
    ensures -0.5 <= n as real - m <= 0.5
    ensures Abs(n as real - m) == 0.5 ==> n % 2 == 0
  {
    var f := m.Floor;
    var d := m - f as real;
    if d < 0.5 then f
    else if d > 0.5 then f + 1
    else if f % 2 == 0 then f
    else f + 1
  }

  /** The two properties RoundHalfEven promises single out its result. */
  lemma RoundHalfEvenUnique(m: real, n: int)
    requires -0.5 <= n as real - m <= 0.5
    requires Abs(n as real - m) == 0.5 ==> n % 2 == 0
    ensures n == RoundHalfEven(m)
  {
  }

  /** The error bound of rounding the coefficient, carried through the scaling. */
  lemma ScaledRoundingError(n: int, m: real, e: int)
    requires MinCoefficient <= m
    requires -0.5 <= n as real - m <= 0.5
    ensures Scaled(n as real, e) > 0.0
    ensures Abs(Scaled(n as real, e) - Scaled(m, e)) <= Scaled(m, e) * RelativeError
  {
    var p := Pow10(e);
    var d := n as real - m;
    MulNonNegative(n as real, p);
    assert n as real * p != 0.0;
    assert n as real * p - m * p == d * p;
    MulNonNegative(0.5 - d, p);
    MulNonNegative(d + 0.5, p);
    assert -0.5 * p <= d * p <= 0.5 * p;
    MulNonNegative(m - MinCoefficient, p);
    assert MinCoefficient * p <= m * p;
    assert Abs(d * p) <= 0.5 * p;
    assert 0.5 * p == (MinCoefficient * p) * RelativeError;
    assert (MinCoefficient * p) * RelativeError <= (m * p) * RelativeError;
    assert Scaled(m, e) * RelativeError == (m * p) * RelativeError;
  }

  lemma MulNonNegative(a: real, b: real)
    requires a >= 0.0 && b >= 0.0
    ensures a * b >= 0.0
  {
  }

  /**
   * Rounding a coefficient by at most one half moves the value by at most half a unit of
   * its last digit, 10^e / 2, and by exactly that much only on a tie.
   */
  lemma ScaledHalfUnit(n: int, m: real, e: int)
    requires -0.5 <= n as real - m <= 0.5
    ensures Abs(Scaled(n as real, e) - Scaled(m, e)) <= Pow10(e) / 2.0
    ensures Abs(Scaled(n as real, e) - Scaled(m, e)) == Pow10(e) / 2.0 ==> Abs(n as real - m) == 0.5
  {
    var p := Pow10(e);
    var d := n as real - m;
    assert Scaled(n as real, e) - Scaled(m, e) == d * p;
    MulNonNegative(0.5 - d, p);
    MulNonNegative(d + 0.5, p);
    if Abs(d * p) == p / 2.0 {
      if d * p == p / 2.0 {
        assert (d - 0.5) * p == 0.0;
      } else {
        assert (d + 0.5) * p == 0.0;
      }
    }
  }

  /**
   * y is x rounded at the digit of weight 10^e to the integer multiple n * 10^e, with |n|
   * of seven digits (or 10^7 after a carry), at most half a unit 10^e / 2 away from x,
   * and with n even when x lies exactly halfway.
   */
  ghost predicate RoundedTo(x: real, y: real, e: int, n: int)
  {
    y == Scaled(n as real, e) && MinCoefficient <= Abs(n as real) <= CoefficientLimit &&
    Abs(y - x) <= Pow10(e) / 2.0 && (Abs(y - x) == Pow10(e) / 2.0 ==> n % 2 == 0)
  }

  /** y is x rounded half to even at the digit of weight 10^e. */
  ghost predicate NearestEvenAt(x: real, y: real, e: int)
  {
    exists n: int :: RoundedTo(x, y, e, n)
  }

  /** Rounding at a fixed digit is symmetric in the sign. */
  lemma NearestEvenAtNegated(x: real, y: real, e: int)
    requires NearestEvenAt(x, y, e)
    ensures NearestEvenAt(-x, -y, e)
  {
    var n: int :| RoundedTo(x, y, e, n);
    assert -y == Scaled(-n as real, e);
    assert Abs(-y - -x) == Abs(y - x);
    assert n % 2 == 0 ==> (-n) % 2 == 0;
    assert RoundedTo(-x, -y, e, -n);
  }

  /** The coefficient of the seven-digit form of x is x / 10^e. */
  lemma CoefficientIsQuotient(x: real)
    requires x > 0.0
    ensures Normalize(x).0 == x / Pow10(Normalize(x).1)
  {
    var r := Normalize(x);
    assert r.0 * Pow10(r.1) == x;
  }

  /**
   * Rounding of a positive value: the coefficient of the seven-digit form, rounded half
   * to even, with the exponent kept.
   */
  function RoundMagnitude(x: real): (y: real)
    requires x > 0.0
    ensures y > 0.0
    ensures Abs(y - x) <= x * RelativeError
    ensures NearestEvenAt(x, y, Normalize(x).1)
  {
    var r := Normalize(x);
    var n := RoundHalfEven(r.0);
    ScaledRoundingError(n, r.0, r.1);
    ScaledHalfUnit(n, r.0, r.1);
    var y := Scaled(n as real, r.1);
    assert RoundedTo(x, y, r.1, n);
    y
  }

  /**
   * x rounded to seven significant digits, ties to even: the value BigDecimal yields
   * under MathContext.DECIMAL32. The rounding is at the digit of weight 10^e, where e is
   * the exponent that gives |x| a seven-digit coefficient; the sign is kept, and the
   * error is therefore also at most 5 * 10^-7 relative to |x|.
   */
  function Round7(x: real): (y: real)
    ensures x > 0.0 ==> y > 0.0
    ensures x < 0.0 ==> y < 0.0
    ensures x == 0.0 ==> y == 0.0
    ensures Abs(y - x) <= Abs(x) * RelativeError
    ensures x != 0.0 ==> NearestEvenAt(x, y, Normalize(Abs(x)).1)
  {
    if x == 0.0 then 0.0
    else if x > 0.0 then RoundMagnitude(x)
    else
      var y := RoundMagnitude(-x);
      NearestEvenAtNegated(-x, y, Normalize(-x).1);
      -y
  }

  /**
   * Round7 is determined: for the exponent e of the seven-digit form of |x|, any integer
   * n nearest to x / 10^e, the even one on a tie, gives Round7(x) == n * 10^e.
   */
  lemma Round7IsNearestEven(x: real, n: int)
    requires x != 0.0
    requires -0.5 <= n as real - x / Pow10(Normalize(Abs(x)).1) <= 0.5
    requires Abs(n as real - x / Pow10(Normalize(Abs(x)).1)) == 0.5 ==> n % 2 == 0
    ensures Round7(x) == Scaled(n as real, Normalize(Abs(x)).1)
  {
    if x > 0.0 {
      RoundMagnitudeIsNearestEven(x, n);
    } else {
      var e := Normalize(-x).1;
      assert Abs(x) == -x;
      NegatedQuotient(x, Pow10(e));
      assert n % 2 == 0 ==> (-n) % 2 == 0;
      RoundMagnitudeIsNearestEven(-x, -n);
      assert Round7(x) == -RoundMagnitude(-x);
      ScaledNegated(n as real, e);
    }
  }

  /** The positive case of Round7IsNearestEven. */
  lemma RoundMagnitudeIsNearestEven(x: real, n: int)
    requires x > 0.0
    requires -0.5 <= n as real - x / Pow10(Normalize(x).1) <= 0.5
    requires Abs(n as real - x / Pow10(Normalize(x).1)) == 0.5 ==> n % 2 == 0
    ensures RoundMagnitude(x) == Scaled(n as real, Normalize(x).1)
  {
    CoefficientIsQuotient(x);
    RoundHalfEvenUnique(Normalize(x).0, n);
  }

  /** Negating the coefficient negates the value. */
  lemma ScaledNegated(m: real, e: int)
    ensures Scaled(-m, e) == -Scaled(m, e)
  {
  }

  /** Negating the dividend negates the quotient. */
  lemma NegatedQuotient(x: real, p: real)
    requires p > 0.0
    ensures (-x) / p == -(x / p)
  {
  }

  /** The worked example: 1 / 0.11 = 9.0909... rounds to 9.090909. */
  lemma RoundReciprocalOfElevenHundredths()
    ensures Round7(1.0 / 0.11) == 9.090909
  {
  }
}

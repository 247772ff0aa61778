/** The exact decimal arithmetic of main.kt: `x.toBigDecimal()
    .multiply(BigDecimal.valueOf(100)).divide(y.toBigDecimal(), 2,
    RoundingMode.HALF_UP)`. A percentage with two decimals is held as a whole
    number of hundredths of a percent, so 75.00% is 7500. */
module HalfUp {

  function Abs(x: int): nat {
    if x < 0 then -x else x
  }

  /** `n / d` rounded to the nearest integer, ties away from zero
      (`RoundingMode.HALF_UP`): the magnitude of the result is within one
      half of `|n| / |d|`, a tie going up, and it has the sign of the
      quotient. */
  function DivHalfUp(n: int, d: int): (q: int)
    requires d != 0
    ensures 2 * Abs(d) * Abs(q) - Abs(d) <= 2 * Abs(n) < 2 * Abs(d) * Abs(q) + Abs(d)
    ensures (n >= 0 && d > 0) || (n <= 0 && d < 0) ==> q >= 0
    ensures (n >= 0 && d < 0) || (n <= 0 && d > 0) ==> q <= 0
  {
    var a, b := Abs(n), Abs(d);
    var m := (2 * a + b) / (2 * b);
    NearestQuotient(a, b);
    if (n < 0) != (d < 0) then -m else m
  }

  lemma NearestQuotient(a: int, b: int)
    requires a >= 0 && b > 0
    ensures var m := (2 * a + b) / (2 * b); m >= 0 && 2 * b * m - b <= 2 * a < 2 * b * m + b
  {
    var m := (2 * a + b) / (2 * b);
    var r := (2 * a + b) % (2 * b);
    assert 2 * a + b == 2 * b * m + r && 0 <= r < 2 * b;
  }

  /** `part * 100 / whole` at two decimals, in hundredths of a percent: the
      nearest whole number of hundredths to `part * 10000 / whole`, a tie
      rounding away from zero. */
  function Percentage(part: int, whole: int): (p: int)
    requires whole != 0
    ensures 2 * Abs(whole) * Abs(p) - Abs(whole) <= 2 * Abs(part * 10000) < 2 * Abs(whole) * Abs(p) + Abs(whole)
    ensures part >= 0 && whole > 0 ==> p >= 0
  {
    DivHalfUp(part * 10000, whole)
  }

  lemma MulLe(a: int, b: int, c: int)
    requires c > 0 && a <= b
    ensures a * c <= b * c
  {
  }

  /** A part between nothing and the whole gives a percentage between 0.00 and
      100.00, and the whole itself gives exactly 100.00. */
  lemma PercentageBounds(part: int, whole: int)
    requires 0 <= part <= whole && whole > 0
    ensures 0 <= Percentage(part, whole) <= 10000
    ensures part == whole ==> Percentage(part, whole) == 10000
  {
    var q := Percentage(part, whole);
    assert 2 * whole * q - whole <= 2 * (part * 10000);
    MulLe(part, whole, 10000);
    if q > 10000 {
      MulLe(10001, q, 2 * whole);
      assert false;
    }
    if part == whole && q < 10000 {
      MulLe(q, 9999, 2 * whole);
      assert false;
    }
  }

  /** A larger part never gives a smaller percentage of the same whole. */
  lemma PercentageMonotone(p1: int, p2: int, whole: int)
    requires 0 <= p1 <= p2 && whole > 0
    ensures Percentage(p1, whole) <= Percentage(p2, whole)
  {
    var q1, q2 := Percentage(p1, whole), Percentage(p2, whole);
    MulLe(p1, p2, 10000);
    if q1 > q2 {
      MulLe(q2 + 1, q1, 2 * whole);
      assert false;
    }
  }

  /** Half-up at the second decimal: 1/3 is 33.33%, 1.005% is 1.01%,
      33.335% is 33.34%; a negative tie rounds away from zero. */
  lemma RoundingExamples()
    ensures Percentage(1, 3) == 3333
    ensures Percentage(15, 20) == 7500
    ensures Percentage(201, 20000) == 101
    ensures Percentage(6667, 20000) == 3334
    ensures DivHalfUp(-5, 2) == -3 && DivHalfUp(5, 2) == 3
  {
  }
}

/**
 * `Math.round(a / b)` on integers, computed exactly: JavaScript rounds to the
 * nearest integer and rounds halves up (towards +infinity).
 */
module Rounding {

  /** `Math.round(a / b)`: the integer `r` with `r - 1/2 <= a/b < r + 1/2`. */
  function RoundDiv(a: int, b: int): (r: int)
    requires b != 0
    ensures b > 0 ==> (2 * r - 1) * b <= 2 * a < (2 * r + 1) * b
    ensures b < 0 ==> (2 * r - 1) * b >= 2 * a > (2 * r + 1) * b
  {
    var n, d := if b > 0 then a else -a, if b > 0 then b else -b;
    var r := (2 * n + d) / (2 * d);
    assert 2 * d * r <= 2 * n + d < 2 * d * r + 2 * d;
    assert (2 * r - 1) * d <= 2 * n < (2 * r + 1) * d;
    assert b < 0 ==> (2 * r - 1) * b == -((2 * r - 1) * d) && (2 * r + 1) * b == -((2 * r + 1) * d);
    r
  }

  /** A positive factor can be cancelled from both sides of a strict inequality. */
  lemma CancelPositive(x: int, y: int, b: int)
    requires b > 0 && x * b < y * b
    ensures x < y
  {
  }

  /** Rounding is monotonic in the numerator for a positive denominator. */
  lemma RoundDivMonotone(a1: int, a2: int, b: int)
    requires b > 0 && a1 <= a2
    ensures RoundDiv(a1, b) <= RoundDiv(a2, b)
  {
    var r1, r2 := RoundDiv(a1, b), RoundDiv(a2, b);
    CancelPositive(2 * r1 - 1, 2 * r2 + 1, b);
  }

  /** A ratio of a non-negative numerator and a positive denominator rounds to a non-negative integer. */
  lemma RoundDivNonNegative(a: int, b: int)
    requires a >= 0 && b > 0
    ensures RoundDiv(a, b) >= 0
  {
    CancelPositive(-1, 2 * RoundDiv(a, b) + 1, b);
  }

  /** When `b` divides `a` exactly, rounding gives the exact quotient. */
  lemma RoundDivExact(q: int, b: int)
    requires b > 0
    ensures RoundDiv(q * b, b) == q
  {
    var r := RoundDiv(q * b, b);
    assert 2 * (q * b) == (2 * q) * b;
    CancelPositive(2 * r - 1, 2 * q + 1, b) by {
      assert (2 * q + 1) * b == 2 * (q * b) + b;
    }
    CancelPositive(2 * q - 1, 2 * r + 1, b) by {
      assert (2 * q - 1) * b == 2 * (q * b) - b;
    }
  }
}

/**
 * Decimal arithmetic as the service's number library does it by default: quotients and roots
 * keep 20 decimal places, and every rounding is to the nearest, halves upward.
 */
module Rounding {
  /** 10 to the number of decimal places kept by divisions and square roots. */
  const SCALE: nat := 100_000_000_000_000_000_000

  /** The quotient rounded to an integer, halves upward. */
  function RoundHalfUp(a: nat, b: nat): (r: nat)
    requires b > 0
    ensures 2 * b * r <= 2 * a + b < 2 * b * (r + 1)
  {
    var q := (2 * a + b) / (2 * b);
    DivisionBounds(2 * a + b, 2 * b);
    q
  }

  lemma DivisionBounds(a: nat, b: nat)
    requires b > 0
    ensures b * (a / b) <= a < b * (a / b + 1)
  {
    assert a == b * (a / b) + a % b;
  }

  lemma RoundsTo(s: nat, k: nat, d: nat)
    requires d > 0
    ensures RoundHalfUp(s, d) == k <==> (k > 0 ==> (2 * k - 1) * d <= 2 * s) && 2 * s < (2 * k + 1) * d
  {
    var r := RoundHalfUp(s, d);
    Multiples(r, d);
    Multiples(k, d);
    MultiplesOrdered(r, k, d);
    RoundsToLinear(s, r, k, r * d, k * d, d);
  }

  lemma RoundAtLeast(s: nat, k: nat, d: nat)
    requires d > 0 && (k > 0 ==> (2 * k - 1) * d <= 2 * s)
    ensures RoundHalfUp(s, d) >= k
  {
    var r := RoundHalfUp(s, d);
    Multiples(r, d);
    Multiples(k, d);
    MultiplesOrdered(r, k, d);
  }

  lemma Multiples(r: nat, d: nat)
    ensures 2 * d * r == 2 * (r * d) && 2 * d * (r + 1) == 2 * (r * d) + 2 * d
    ensures (2 * r - 1) * d == 2 * (r * d) - d && (2 * r + 1) * d == 2 * (r * d) + d
  {
  }

  lemma MultiplesOrdered(r: nat, k: nat, d: nat)
    ensures r < k ==> r * d + d <= k * d
    ensures k < r ==> k * d + d <= r * d
  {
    if r < k {
      MulMonotone(r + 1, k, d);
    } else if k < r {
      MulMonotone(k + 1, r, d);
    }
  }

  lemma RoundsToLinear(s: nat, r: nat, k: nat, rd: nat, kd: nat, d: nat)
    requires d > 0 && 2 * rd <= 2 * s + d < 2 * rd + 2 * d
    requires (r < k ==> rd + d <= kd) && (k < r ==> kd + d <= rd) && (r == k ==> rd == kd)
    requires k == 0 ==> kd == 0
    ensures r == k <==> (k > 0 ==> 2 * kd - d <= 2 * s) && 2 * s < 2 * kd + d
  {
  }

  lemma RoundMonotone(a: nat, b: nat, d: nat)
    requires a <= b && d > 0
    ensures RoundHalfUp(a, d) <= RoundHalfUp(b, d)
  {
    var p, q := RoundHalfUp(a, d), RoundHalfUp(b, d);
    if p > q {
      MulMonotone(q + 1, p, 2 * d);
    }
  }

  lemma MulMonotone(a: nat, b: nat, c: nat)
    requires a <= b
    ensures c * a <= c * b
  {
  }
}

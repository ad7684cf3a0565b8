/**
 * Smoothing of a quorum into voting power. The square root is first rounded to 20 decimal
 * places and then to an integer, half up both times, so the result can differ from the
 * nearest integer to the root; this module says exactly when.
 */
module VotingPower {
  import opened Rounding
  import opened Text

  datatype Smoothing = Cvadratic | Linear

  function Pow10(k: nat): (p: nat)
    ensures p > 0
  {
    if k == 0 then 1 else 10 * Pow10(k - 1)
  }

  function FloorSqrt(n: nat): (r: nat)
    ensures r * r <= n < (r + 1) * (r + 1)
  {
    if n == 0 then 0
    else
      var half := FloorSqrt(n / 4);
      DoubleRoot(n, half);
      if (2 * half + 1) * (2 * half + 1) <= n then 2 * half + 1 else 2 * half
  }

  lemma DoubleRoot(n: nat, half: nat)
    requires half * half <= n / 4 < (half + 1) * (half + 1)
    ensures (2 * half) * (2 * half) <= n < (2 * half + 2) * (2 * half + 2)
  {
    assert (2 * half) * (2 * half) == 4 * (half * half);
    assert (2 * half + 2) * (2 * half + 2) == 4 * ((half + 1) * (half + 1));
  }

  /** The square root to 20 decimal places, halves upward, in units of the last place. */
  function ScaledSqrt(n: nat): (s: nat)
    ensures s > 0 ==> (2 * s - 1) * (2 * s - 1) <= 4 * (n * (SCALE * SCALE))
    ensures 4 * (n * (SCALE * SCALE)) < (2 * s + 1) * (2 * s + 1)
  {
    var root := FloorSqrt(4 * (n * (SCALE * SCALE)));
    var s := (root + 1) / 2;
    SquareMonotone(root + 1, 2 * s + 1);
    if s > 0 then SquareMonotone(2 * s - 1, root); s else s
  }

  lemma SquareMonotone(a: nat, b: nat)
    requires a <= b
    ensures a * a <= b * b
  {
  }

  lemma SquareReflects(a: nat, b: nat)
    requires a * a < b * b
    ensures a < b
  {
    if b <= a {
      SquareMonotone(b, a);
    }
  }

  function SmoothCvadratic(n: nat): nat {
    RoundHalfUp(ScaledSqrt(n), SCALE)
  }

  /** A quorum is a whole number, so rounding it changes nothing. */
  function Smooth(kind: Smoothing, quorum: nat): nat {
    match kind
    case Cvadratic => SmoothCvadratic(quorum)
    case Linear => RoundHalfUp(quorum, 1)
  }

  // ----- The nearest integer root -----

  /** k - 1/2 < sqrt(n) < k + 1/2, over the integers. */
  predicate IsNearestRoot(k: nat, n: nat) {
    (if n == 0 then k == 0 else k * (k - 1) < n) && n <= k * (k + 1)
  }

  function NearestRoot(n: nat): (k: nat)
    ensures IsNearestRoot(k, n)
  {
    var r := FloorSqrt(n);
    EdgesAround(n, r);
    if n <= r * (r + 1) then r else r + 1
  }

  lemma EdgesAround(n: nat, r: nat)
    requires r * r <= n < (r + 1) * (r + 1)
    ensures IsNearestRoot(if n <= r * (r + 1) then r else r + 1, n)
  {
    var square := r * r;
    assert (r + 1) * (r + 1) == square + 2 * r + 1;
    assert (r + 1) * (r + 2) == square + 3 * r + 2;
    assert r * (r - 1) == square - r;
    if r > 0 {
      MulMonotone(1, r, r);
    }
  }

  lemma NearestRootUnique(n: nat, j: nat, k: nat)
    requires IsNearestRoot(j, n) && IsNearestRoot(k, n)
    ensures j == k
  {
    if j < k {
      ProductMonotone(j, k - 1);
    } else if k < j {
      ProductMonotone(k, j - 1);
    }
  }

  /** The scaled root is always past the lower edge of the nearest integer's interval. */
  lemma LowerEdge(s: nat, n: nat, k: nat, d: nat)
    requires d % 2 == 0 && k > 0 && k * (k - 1) < n
    requires 4 * (n * (d * d)) < (2 * s + 1) * (2 * s + 1)
    ensures (2 * k - 1) * d <= 2 * s
  {
    var m := (2 * k - 1) * d;
    EvenProduct(2 * k - 1, d);
    SquareOfProduct(2 * k - 1, d);
    assert (2 * k - 1) * (2 * k - 1) == 4 * (k * (k - 1)) + 1;
    MulMonotone((2 * k - 1) * (2 * k - 1), 4 * n, d * d);
    assert 4 * (n * (d * d)) == (d * d) * (4 * n);
    if 2 * s < m {
      SquareMonotone(2 * s + 1, m);
    }
  }

  lemma EvenProduct(a: nat, d: nat)
    requires d % 2 == 0
    ensures (a * d) % 2 == 0
  {
    assert a * d == 2 * (a * (d / 2));
  }

  lemma SquareOfProduct(a: int, b: int)
    ensures (a * b) * (a * b) == (a * a) * (b * b) == (b * b) * (a * a)
  {
  }

  /** It stays short of the upper edge unless n is too close to the edge for the places kept. */
  lemma UpperEdge(s: nat, n: nat, k: nat, d: nat)
    requires d % 2 == 0 && d > 0
    requires s > 0 ==> (2 * s - 1) * (2 * s - 1) <= 4 * (n * (d * d))
    requires 4 * (n * (d * d)) < (2 * s + 1) * (2 * s + 1)
    ensures 2 * s < (2 * k + 1) * d <==> 2 * (2 * k + 1) <= ((2 * k + 1) * (2 * k + 1) - 4 * n) * d
  {
    EvenProduct(2 * k + 1, d);
    MulMonotone(1, 2 * k + 1, d);
    UpperEdgeGap(n, k, d);
    EvenEdge(s, 4 * (n * (d * d)), (2 * k + 1) * d);
  }

  lemma EvenEdge(s: nat, scaled: nat, m: nat)
    requires m % 2 == 0 && m > 0
    requires s > 0 ==> (2 * s - 1) * (2 * s - 1) <= scaled
    requires scaled < (2 * s + 1) * (2 * s + 1)
    ensures 2 * s < m <==> scaled < (m - 1) * (m - 1)
  {
    if scaled < (m - 1) * (m - 1) {
      if s > 0 {
        SquareReflects(2 * s - 1, m - 1);
      }
    } else {
      SquareReflects(m - 1, 2 * s + 1);
    }
  }

  lemma UpperEdgeGap(n: nat, k: nat, d: nat)
    requires d > 0
    ensures 4 * (n * (d * d)) < ((2 * k + 1) * d - 1) * ((2 * k + 1) * d - 1) <==>
            2 * (2 * k + 1) <= ((2 * k + 1) * (2 * k + 1) - 4 * n) * d
  {
    var m := 2 * k + 1;
    var gap, edge, scaled := m * m - 4 * n, m * d, n * (d * d);
    var excess := gap * d - 2 * m;
    SquareOfPredecessor(edge);
    GapTimesSquare(n, m, d);
    GapSign(excess, d);
    EdgeBySign(4 * scaled, edge * edge, edge, excess * d, (edge - 1) * (edge - 1));
  }

  lemma EdgeBySign(scaled: int, square: int, edge: int, excess: int, predecessor: int)
    requires excess == square - scaled - 2 * edge && predecessor == square - 2 * edge + 1
    ensures scaled < predecessor <==> excess + 1 > 0
  {
  }

  lemma GapTimesSquare(n: nat, m: nat, d: nat)
    ensures ((m * m - 4 * n) * d - 2 * m) * d == (m * d) * (m * d) - 4 * (n * (d * d)) - 2 * (m * d)
  {
    var gap := m * m - 4 * n;
    Distribute(gap * d, 2 * m, d);
    Associate(gap, d, d);
    Distribute(m * m, 4 * n, d * d);
    SquareOfProduct(m, d);
    Associate(4, n, d * d);
    Associate(2, m, d);
  }

  lemma Associate(a: int, b: int, c: int)
    ensures (a * b) * c == a * (b * c)
  {
  }

  lemma SquareOfPredecessor(x: int)
    ensures (x - 1) * (x - 1) == x * x - 2 * x + 1
  {
  }

  lemma Distribute(a: int, b: int, c: int)
    ensures (a - b) * c == a * c - b * c
  {
  }

  lemma GapSign(x: int, d: nat)
    requires d > 0
    ensures x * d + 1 > 0 <==> x >= 0
  {
    if x < 0 {
      assert (-x) * d >= d;
      assert x * d == -((-x) * d);
      if d == 1 {
        assert x * d <= -1;
      }
    } else {
      assert x * d >= 0;
    }
  }

  lemma RoundedRoot(s: nat, n: nat, k: nat, d: nat)
    requires d % 2 == 0 && d > 0 && IsNearestRoot(k, n)
    requires s > 0 ==> (2 * s - 1) * (2 * s - 1) <= 4 * (n * (d * d))
    requires 4 * (n * (d * d)) < (2 * s + 1) * (2 * s + 1)
    ensures RoundHalfUp(s, d) == k <==> 2 * (2 * k + 1) <= ((2 * k + 1) * (2 * k + 1) - 4 * n) * d
  {
    UpperEdge(s, n, k, d);
    RoundsTo(s, k, d);
    if k > 0 {
      LowerEdge(s, n, k, d);
    }
  }

  /**
   * Despite the double rounding the power is the nearest integer root, except when n lies
   * so little below (k + 1/2) squared that the root itself rounds up to k + 1/2.
   */
  lemma SmoothIsNearestRootExactly(n: nat)
    ensures var k := NearestRoot(n);
      SmoothCvadratic(n) == k <==> 2 * (2 * k + 1) <= ((2 * k + 1) * (2 * k + 1) - 4 * n) * SCALE
  {
    RoundedRoot(ScaledSqrt(n), n, NearestRoot(n), SCALE);
  }

  /** And where it is not, it is the next integer: rounding twice never rounds down wrongly. */
  lemma SmoothMissesUpward(n: nat)
    ensures SmoothCvadratic(n) == NearestRoot(n) || SmoothCvadratic(n) == NearestRoot(n) + 1
  {
    SmoothAtLeastNearest(n);
    SmoothAtMostNext(n, NearestRoot(n));
  }

  lemma SmoothAtMostNext(n: nat, k: nat)
    requires n <= k * (k + 1)
    ensures SmoothCvadratic(n) <= k + 1
  {
    assert k * (k + 1) + (k + 1) == (k + 1) * (k + 1);
    SmoothMonotone(Cvadratic, n, (k + 1) * (k + 1));
    SmoothSquare(k + 1);
  }

  lemma SmoothAtLeastNearest(n: nat)
    ensures SmoothCvadratic(n) >= NearestRoot(n)
  {
    var s, k := ScaledSqrt(n), NearestRoot(n);
    if k > 0 {
      LowerEdge(s, n, k, SCALE);
    }
    RoundAtLeast(s, k, SCALE);
  }

  /** The root at whose upper edge 20 decimal places first fail. */
  const EDGE: nat := 25_000_000_000_000_000_000

  /** Below EDGE * (EDGE + 1), about 6.25e38, the power is always the nearest integer root. */
  lemma SmoothIsNearestRoot(n: nat)
    requires n < EDGE * (EDGE + 1)
    ensures SmoothCvadratic(n) == NearestRoot(n)
  {
    SmoothIsNearestRootExactly(n);
    GapBelowEdge(n, NearestRoot(n), EDGE);
  }

  lemma GapBelowEdge(n: nat, k: nat, e: nat)
    requires n < e * (e + 1) && IsNearestRoot(k, n) && 4 * e == SCALE
    ensures 2 * (2 * k + 1) <= ((2 * k + 1) * (2 * k + 1) - 4 * n) * SCALE
  {
    var gap := (2 * k + 1) * (2 * k + 1) - 4 * n;
    assert gap == 4 * (k * (k + 1) - n) + 1;
    if k > e {
      ProductMonotone(e, k - 1);
    }
    assert k <= e;
  }

  lemma ProductMonotone(a: nat, b: nat)
    requires a <= b
    ensures a * (a + 1) <= b * (b + 1)
  {
  }

  /** At EDGE * (EDGE + 1) it is not. */
  lemma FirstWrongRoot()
    ensures EDGE == 25_000_000_000_000_000_000
    ensures NearestRoot(EDGE * (EDGE + 1)) == EDGE && SmoothCvadratic(EDGE * (EDGE + 1)) != EDGE
  {
    NearestRootUnique(EDGE * (EDGE + 1), EDGE, NearestRoot(EDGE * (EDGE + 1)));
    SmoothIsNearestRootExactly(EDGE * (EDGE + 1));
  }

  // ----- More quorum, no less power -----

  lemma ScaledSqrtMonotone(m: nat, n: nat)
    requires m <= n
    ensures ScaledSqrt(m) <= ScaledSqrt(n)
  {
    ScaledRootsOrdered(ScaledSqrt(m), ScaledSqrt(n), m, n, SCALE * SCALE);
  }

  lemma ScaledRootsOrdered(a: nat, b: nat, m: nat, n: nat, c: nat)
    requires a > 0 ==> (2 * a - 1) * (2 * a - 1) <= 4 * (m * c)
    requires m <= n && 4 * (n * c) < (2 * b + 1) * (2 * b + 1)
    ensures a <= b
  {
    ScaledOrdered(m, n, c);
    RootsOrdered(a, b, 4 * (m * c), 4 * (n * c));
  }

  lemma ScaledOrdered(m: nat, n: nat, c: nat)
    requires m <= n
    ensures 4 * (m * c) <= 4 * (n * c)
  {
    MulMonotone(m, n, c);
  }

  lemma RootsOrdered(a: nat, b: nat, x: nat, y: nat)
    requires a > 0 ==> (2 * a - 1) * (2 * a - 1) <= x
    requires x <= y < (2 * b + 1) * (2 * b + 1)
    ensures a <= b
  {
    if a > b {
      SquareMonotone(2 * b + 1, 2 * a - 1);
    }
  }

  lemma SmoothMonotone(kind: Smoothing, m: nat, n: nat)
    requires m <= n
    ensures Smooth(kind, m) <= Smooth(kind, n)
  {
    match kind
    case Cvadratic =>
      ScaledSqrtMonotone(m, n);
      RoundMonotone(ScaledSqrt(m), ScaledSqrt(n), SCALE);
    case Linear =>
      RoundMonotone(m, n, 1);
  }

  lemma SmoothSquare(k: nat)
    ensures SmoothCvadratic(k * k) == k
  {
    SquareGap(k);
    NearestRootUnique(k * k, k, NearestRoot(k * k));
    SmoothIsNearestRootExactly(k * k);
  }

  lemma SquareGap(k: nat)
    ensures IsNearestRoot(k, k * k)
    ensures 2 * (2 * k + 1) <= ((2 * k + 1) * (2 * k + 1) - 4 * (k * k)) * SCALE
  {
    assert k * (k - 1) == k * k - k && k * (k + 1) == k * k + k;
    assert (2 * k + 1) * (2 * k + 1) - 4 * (k * k) == 4 * k + 1;
  }

  // ----- Decimals of the power -----

  /** A number between 10^k and 10^(k+1) - 1 is written with k + 1 digits. */
  lemma {:induction false} DecimalLength(n: nat, k: nat)
    requires Pow10(k) <= n < Pow10(k + 1)
    ensures |Decimal(n)| == k + 1
  {
    if k != 0 {
      DecimalLength(n / 10, k - 1);
    }
  }

  function VotingPowerDecimals(kind: Smoothing, feeTokenDecimals: nat): int {
    |Decimal(Smooth(kind, Pow10(feeTokenDecimals)))| - 1
  }

  lemma {:induction false} Pow10Add(a: nat, b: nat)
    ensures Pow10(a + b) == Pow10(a) * Pow10(b)
  {
    if a != 0 {
      Pow10Add(a - 1, b);
    }
  }

  lemma LinearIsIdentity(n: nat)
    ensures Smooth(Linear, n) == n
  {
  }

  /** Half the decimals of the fee token, rounded down, or all of them; for any number of decimals. */
  lemma DecimalsOfPower(kind: Smoothing, d: nat)
    ensures VotingPowerDecimals(kind, d) == if kind.Linear? then d else d / 2
  {
    match kind
    case Linear =>
      LinearIsIdentity(Pow10(d));
      DecimalLength(Pow10(d), d);
    case Cvadratic =>
      var low := Pow10(d / 2);
      PowerBetweenSquares(d);
      SmoothMonotone(Cvadratic, low * low, Pow10(d));
      SmoothMonotone(Cvadratic, Pow10(d), (10 * low - 1) * (10 * low - 1));
      SmoothSquare(low);
      SmoothSquare(10 * low - 1);
      DecimalLength(Smooth(Cvadratic, Pow10(d)), d / 2);
  }

  lemma PowerBetweenSquares(d: nat)
    ensures var low := Pow10(d / 2); low * low <= Pow10(d) <= (10 * low - 1) * (10 * low - 1)
  {
    var low := Pow10(d / 2);
    Pow10Add(d / 2, d / 2);
    Pow10Add(d / 2 + d / 2, d % 2);
    assert Pow10(d) <= 10 * (low * low) && low * low <= Pow10(d) by { assert Pow10(1) == 10; }
    NineLow(low);
  }

  lemma NineLow(low: nat)
    requires low > 0
    ensures 10 * (low * low) <= (10 * low - 1) * (10 * low - 1)
  {
    SquareMonotone(9 * low, 10 * low - 1);
    assert (9 * low) * (9 * low) == 81 * (low * low);
  }
}

/**
 * Python's conversions of exact rational values to int, written out over
 * Dafny's unbounded integers.  Each conversion is stated on an integer
 * numerator and a positive integer denominator: 2 or 200 in the overlay
 * placement, the reference measures of the font in the text layout.
 */
module Numeric {

  /** `int(n / d)` for a positive `d`: the quotient truncated toward zero.
      (Dafny's own `/` is Euclidean and rounds down for negative `n`.) */
  function TruncDiv(n: int, d: int): (q: int)
    requires d > 0
    ensures n >= 0 ==> 0 <= q && q * d <= n < q * d + d
    ensures n < 0 ==> q <= 0 && q * d - d < n <= q * d
  {
    if n >= 0 then
      DivBounds(n, d);
      n / d
    else
      var q := (-n) / d;
      DivBounds(-n, d);
      assert (-q) * d == -(q * d);
      -q
  }

  /** Euclidean division of a natural number, in the form TruncDiv uses. */
  lemma DivBounds(m: nat, d: int)
    requires d > 0
    ensures 0 <= m / d
    ensures (m / d) * d <= m < (m / d) * d + d
  {
    assert m == d * (m / d) + m % d;
    assert d * (m / d) == (m / d) * d;
  }

  function Min(a: int, b: int): int { if a < b then a else b }
  function Max(a: int, b: int): int { if a < b then b else a }

  /** Multiplying by a positive factor preserves strict order, read backwards. */
  lemma MulCancelLess(a: int, b: int, d: int)
    requires d > 0 && a * d < b * d
    ensures a < b
  {
    assert b * d - a * d == (b - a) * d;
  }

  /** The two inequalities of TruncDiv's contract pin the quotient down. */
  lemma TruncDivUnique(n: int, d: int, q: int)
    requires d > 0
    requires n >= 0 ==> q * d <= n < q * d + d
    requires n < 0 ==> q * d - d < n <= q * d
    ensures q == TruncDiv(n, d)
  {
    var t := TruncDiv(n, d);
    StepProduct(q, d);
    StepProduct(t, d);
    if n >= 0 {
      MulCancelLess(q, t + 1, d);
      MulCancelLess(t, q + 1, d);
    } else {
      MulCancelLess(q - 1, t, d);
      MulCancelLess(t - 1, q, d);
    }
  }

  lemma StepProduct(a: int, d: int)
    ensures (a + 1) * d == a * d + d && (a - 1) * d == a * d - d
  {
  }

  /** Scaling numerator and denominator by the same positive factor does
      not change the truncated quotient. */
  lemma TruncDivScale(n: int, d: int, k: int)
    requires d > 0 && k > 0
    ensures TruncDiv(k * n, k * d) == TruncDiv(n, d)
  {
    var q := TruncDiv(n, d);
    var kd := k * d;
    var lo := q * d;
    ScaleProduct(k, q, d);
    assert k * lo == q * kd;
    assert k * (lo + d) == q * kd + kd by { Distribute(k, lo, d); }
    assert k * (lo - d) == q * kd - kd by { Distribute(k, lo, -d); }
    if n >= 0 {
      assert lo <= n < lo + d;
      MulLeqMono(lo, n, k);
      MulLessMono(n, lo + d, k);
      assert q * kd <= k * n < q * kd + kd;
    } else {
      assert lo - d < n <= lo;
      MulLessMono(lo - d, n, k);
      MulLeqMono(n, lo, k);
      assert q * kd - kd < k * n <= q * kd;
    }
    TruncDivUnique(k * n, kd, q);
  }

  lemma ScaleProduct(k: int, q: int, d: int)
    ensures k * (q * d) == q * (k * d)
  {
  }

  lemma Distribute(k: int, a: int, b: int)
    ensures k * (a + b) == k * a + k * b
  {
  }

  lemma MulLessMono(a: int, b: int, k: int)
    requires k > 0
    ensures a < b ==> k * a < k * b
  {
    assert k * b - k * a == k * (b - a);
  }

  lemma MulLeqMono(a: int, b: int, k: int)
    requires k > 0
    ensures a <= b ==> k * a <= k * b
  {
    assert k * b - k * a == k * (b - a);
  }

  lemma MulLeqRight(a: int, b: int, k: int)
    requires k > 0 && a <= b
    ensures a * k <= b * k
  {
    assert b * k - a * k == (b - a) * k;
  }

  /** Python's `round(n / 2)`: the nearest integer to n/2, ties (odd `n`)
      going to the even neighbour ("banker's rounding"). */
  function RoundHalf(n: int): (r: int)
    ensures n % 2 == 0 ==> 2 * r == n
    ensures n % 2 == 1 ==> (2 * r == n - 1 || 2 * r == n + 1) && r % 2 == 0
  {
    if n % 2 == 0 then n / 2
    else if (n / 2) % 2 == 0 then n / 2
    else n / 2 + 1
  }

  /** RoundHalf is never more than half a unit from n/2. */
  lemma RoundHalfNear(n: int)
    ensures n - 1 <= 2 * RoundHalf(n) <= n + 1
  {
  }

  /** The contract of RoundHalf determines it: no other integer is nearest
      to n/2 with ties broken to even. */
  lemma RoundHalfUnique(n: int, r: int)
    requires n % 2 == 0 ==> 2 * r == n
    requires n % 2 == 1 ==> (2 * r == n - 1 || 2 * r == n + 1) && r % 2 == 0
    ensures r == RoundHalf(n)
  {
  }

  /** If 2*lo <= n <= 2*hi then lo <= round(n/2) <= hi. */
  lemma RoundHalfBetween(n: int, lo: int, hi: int)
    requires 2 * lo <= n <= 2 * hi
    ensures lo <= RoundHalf(n) <= hi
  {
  }
}

/** Facts about ordered multiplication and division of reals that the solver does not find unaided. */
module Arith {

  lemma MulLe(a: real, b: real, c: real)
    requires a <= b && 0.0 <= c
    ensures a * c <= b * c
  {
  }

  /** Scaling a non-negative number by a factor in [lo, hi] lands between lo and hi times it. */
  lemma ScaleWithin(x: real, factor: real, lo: real, hi: real, product: real)
    requires 0.0 <= x && lo <= factor <= hi && product == x * factor
    ensures lo * x <= product <= hi * x
  {
    MulLe(lo, factor, x);
    MulLe(factor, hi, x);
  }

  lemma MulLt(a: real, b: real, c: real)
    requires a < b && 0.0 < c
    ensures a * c < b * c
  {
  }

  /** Dividing by a larger positive number never gives more. */
  lemma DivAntitone(x: real, small: real, large: real)
    requires 0.0 <= x && 0.0 < small <= large
    ensures x / large <= x / small
  {
    var ql, qs := x / large, x / small;
    assert ql * large == x && qs * small == x;
    assert 0.0 <= ql;
    MulLe(small, large, ql);
    if ql > qs {
      MulLt(qs, ql, small);
      assert false;
    }
  }

  /** Dividing by a positive number keeps order. */
  lemma DivMonotone(a: real, b: real, n: real)
    requires a <= b && 0.0 < n
    ensures a / n <= b / n
  {
    var qa, qb := a / n, b / n;
    assert qa * n == a && qb * n == b;
    if qa > qb {
      MulLt(qb, qa, n);
      assert false;
    }
  }

  lemma MulCancel(x: real, y: real, n: real)
    requires 0.0 < n && x * n == y * n
    ensures x == y
  {
    if x < y { MulLt(x, y, n); }
    if y < x { MulLt(y, x, n); }
  }

  /** Multiplying and then dividing by the same positive number gives back the start. */
  lemma MulDivCancel(x: real, n: real)
    requires 0.0 < n
    ensures x * n / n == x
  {
    var q := x * n / n;
    assert q * n == x * n;
    MulCancel(q, x, n);
  }

  /** A total between `lo * n` and `hi * n` averages, over `n`, to between `lo` and `hi`. */
  lemma DivBetween(lo: real, hi: real, total: real, n: real)
    requires 0.0 < n && lo * n <= total <= hi * n
    ensures lo <= total / n <= hi
  {
    DivMonotone(lo * n, total, n);
    DivMonotone(total, hi * n, n);
    MulDivCancel(lo, n);
    MulDivCancel(hi, n);
  }

  /** One minus a fraction is the fraction of the rest. */
  lemma DivComplement(c: real, n: real)
    requires 0.0 < n
    ensures 1.0 - c / n == (n - c) / n
  {
    var q, r := c / n, (n - c) / n;
    assert q * n == c && r * n == n - c;
    assert (1.0 - q) * n == n - c;
    MulCancel(1.0 - q, r, n);
  }

  /** A part over a positive whole lies in [0, 1], and is 0 or 1 exactly at the ends. */
  lemma Fraction(part: real, whole: real)
    requires 0.0 <= part <= whole && 0.0 < whole
    ensures 0.0 <= part / whole <= 1.0
    ensures part / whole == 1.0 <==> part == whole
    ensures part / whole == 0.0 <==> part == 0.0
  {
    DivMonotone(part, whole, whole);
    DivMonotone(0.0, part, whole);
    assert (part / whole) * whole == part;
  }
}

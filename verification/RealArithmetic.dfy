/** Order facts about products and quotients of reals, one solver step each. */
module RealArithmetic {

  lemma MulPositive(x: real, y: real)
    requires x > 0.0 && y > 0.0
    ensures x * y > 0.0
  {
  }

  lemma MulNonNegative(x: real, y: real)
    requires x >= 0.0 && y >= 0.0
    ensures x * y >= 0.0
  {
  }

  lemma CancelLeq(x: real, y: real, f: real)
    requires f > 0.0 && x * f <= y * f
    ensures x <= y
  {
    assert (x - y) * f == x * f - y * f;
    if y < x {
      MulPositive(x - y, f);
    }
  }

  lemma MulLeq(a: real, b: real, x: real, y: real)
    requires 0.0 <= a <= b && 0.0 < x <= y
    ensures a * x <= b * y
    ensures a < b ==> a * x < b * y
  {
    MulNonNegative(b, y - x);
    assert b * y - a * x == (b - a) * x + b * (y - x);
    if a < b {
      MulPositive(b - a, x);
    }
  }

  lemma QuotientBounds(num: real, denom: real, lo: real, hi: real)
    requires denom > 0.0 && lo * denom <= num <= hi * denom
    ensures lo <= num / denom <= hi
  {
    assert num / denom * denom == num;
    CancelLeq(lo, num / denom, denom);
    CancelLeq(num / denom, hi, denom);
  }

  lemma QuotientPositive(x: real, y: real)
    requires x > 0.0 && y > 0.0
    ensures x / y > 0.0
  {
    assert x / y * y == x;
    if x / y <= 0.0 {
      MulNonNegative(-(x / y), y);
    }
  }

  lemma QuotientsOrdered(a: real, m: real, b: real, n: real)
    requires m > 0.0 && n > 0.0 && a * n <= b * m
    ensures a / m <= b / n
  {
    var x, y := a / m, b / n;
    assert x * (m * n) == (x * m) * n == a * n;
    assert y * (m * n) == (y * n) * m == b * m;
    MulPositive(m, n);
    CancelLeq(x, y, m * n);
  }

  lemma QuotientsCompare(a: real, m: real, b: real, n: real)
    requires m > 0.0 && n > 0.0
    ensures a / m <= b / n <==> a * n <= b * m
  {
    var x, y := a / m, b / n;
    assert x * (m * n) == (x * m) * n == a * n;
    assert y * (m * n) == (y * n) * m == b * m;
    MulPositive(m, n);
    if x <= y {
      MulNonNegative(y - x, m * n);
      assert (y - x) * (m * n) == y * (m * n) - x * (m * n);
    } else {
      MulPositive(x - y, m * n);
      assert (x - y) * (m * n) == x * (m * n) - y * (m * n);
    }
  }

  lemma ProductZero(x: real, y: real)
    requires x >= 0.0 && y >= 0.0 && x * y == 0.0
    ensures x == 0.0 || y == 0.0
  {
    if x > 0.0 && y > 0.0 {
      MulPositive(x, y);
    }
  }

  lemma QuotientOne(a: real, m: real)
    requires m > 0.0
    ensures a / m == 1.0 <==> a == m
  {
    assert a / m * m == a;
  }

  lemma DivideLeq(a: real, b: real, m: real)
    requires m > 0.0 && a <= b
    ensures a / m <= b / m
  {
    assert a / m * m == a && b / m * m == b;
    CancelLeq(a / m, b / m, m);
  }

  lemma AddQuotients(a: real, b: real, c: real, m: real)
    requires m > 0.0 && c == a + b
    ensures c / m == a / m + b / m
  {
  }

  /** A proper fraction does not fall when both its parts grow by the same amount. */
  lemma FractionRises(a: real, m: real, b: real, n: real, d: real)
    requires 0.0 <= a <= m && 0.0 < m && 0.0 <= d && b == a + d && n == m + d
    ensures a / m <= b / n
  {
    MulNonNegative(d, m - a);
    assert b * m - a * n == d * (m - a);
    QuotientsOrdered(a, m, b, n);
  }

  /** Linear interpolation between `a <= b` is monotone and stays between them. */
  lemma Interpolate(a: real, b: real, t: real, u: real)
    requires a <= b && 0.0 <= t <= u <= 1.0
    ensures a <= a + (b - a) * t <= a + (b - a) * u <= b
  {
    var d := b - a;
    MulNonNegative(d, t);
    MulNonNegative(d, u - t);
    MulNonNegative(d, 1.0 - u);
    assert d * (u - t) == d * u - d * t && d * (1.0 - u) == d - d * u;
  }

  lemma Blend(a: real, b: real, c: real, d: real, t: real)
    requires a <= c && b <= d && 0.0 <= t <= 1.0
    ensures a + (b - a) * t <= c + (d - c) * t
  {
    MulNonNegative(1.0 - t, c - a);
    MulNonNegative(t, d - b);
    assert c + (d - c) * t - (a + (b - a) * t) == (1.0 - t) * (c - a) + t * (d - b);
  }
}

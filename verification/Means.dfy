/** Arithmetic, geometric and weighted means of ratios (harness/aggregate.py), over exact reals. */
module Means {
  import opened RealArithmetic

  // ---- sums and products of the first n elements ------------------------

  function Sum(xs: seq<real>, n: nat := |xs|): real
    requires n <= |xs|
  {
    if n == 0 then 0.0 else Sum(xs, n - 1) + xs[n - 1]
  }

  function Product(xs: seq<real>, n: nat := |xs|): real
    requires n <= |xs|
  {
    if n == 0 then 1.0 else Product(xs, n - 1) * xs[n - 1]
  }

  function Dot(ws: seq<real>, rs: seq<real>, n: nat := |ws|): real
    requires n <= |ws| == |rs|
  {
    if n == 0 then 0.0 else Dot(ws, rs, n - 1) + ws[n - 1] * rs[n - 1]
  }

  function Power(x: real, n: nat): real {
    if n == 0 then 1.0 else Power(x, n - 1) * x
  }

  function Mean(xs: seq<real>, n: nat := |xs|): real
    requires 0 < n <= |xs|
  {
    Sum(xs, n) / n as real
  }

  function WeightedMean(ws: seq<real>, rs: seq<real>): real
    requires |ws| == |rs| && Sum(ws) != 0.0
  {
    Dot(ws, rs) / Sum(ws)
  }

  ghost predicate Positive(xs: seq<real>) {
    forall i :: 0 <= i < |xs| ==> xs[i] > 0.0
  }

  ghost predicate Within(xs: seq<real>, lo: real, hi: real) {
    forall i :: 0 <= i < |xs| ==> lo <= xs[i] <= hi
  }

  ghost predicate AllEqual(xs: seq<real>, n: nat := |xs|)
    requires n <= |xs|
  {
    forall i :: 0 <= i < n ==> xs[i] == xs[0]
  }

  /** `exp(mean(log xs))`: the positive number whose n-th power is the product. */
  ghost predicate IsGeometricMean(g: real, xs: seq<real>) {
    g > 0.0 && Power(g, |xs|) == Product(xs)
  }

  // ---- powers, products and sums ----------------------------------------

  /** The last step of the sums, products and powers over the first n + 1 elements. */
  lemma SumSucc(xs: seq<real>, n: nat)
    requires n < |xs|
    ensures Sum(xs, n + 1) == Sum(xs, n) + xs[n]
    ensures Product(xs, n + 1) == Product(xs, n) * xs[n]
  {
  }

  lemma DotSucc(ws: seq<real>, rs: seq<real>, n: nat)
    requires n < |ws| == |rs|
    ensures Dot(ws, rs, n + 1) == Dot(ws, rs, n) + ws[n] * rs[n]
    ensures Sum(ws, n + 1) == Sum(ws, n) + ws[n] && Sum(rs, n + 1) == Sum(rs, n) + rs[n]
  {
  }

  lemma EmptySums(ws: seq<real>, rs: seq<real>)
    requires |ws| == |rs|
    ensures Sum(ws, 0) == Sum(rs, 0) == Dot(ws, rs, 0) == 0.0
  {
  }

  lemma PowerSucc(x: real, n: nat)
    ensures Power(x, n + 1) == Power(x, n) * x
  {
  }

  lemma {:induction false} PowerPositive(x: real, n: nat)
    requires x > 0.0
    ensures Power(x, n) > 0.0
  {
    if n == 0 {
    } else {
      PowerPositive(x, n - 1);
      MulPositive(Power(x, n - 1), x);
    }
  }

  lemma {:induction false} PowerStrict(x: real, y: real, n: nat)
    requires 0.0 < x < y && n > 0
    ensures Power(x, n) < Power(y, n)
  {
    PowerPositive(x, n - 1);
    if n == 1 {
      assert Power(x, 0) == 1.0 && Power(y, 0) == 1.0;
    } else {
      PowerStrict(x, y, n - 1);
      MulLeq(Power(x, n - 1), Power(y, n - 1), x, y);
    }
  }

  lemma ProductStep(l: real, p: real, h: real, lo: real, x: real, hi: real, l': real, p': real, h': real)
    requires 0.0 <= l <= p <= h && 0.0 < lo <= x <= hi
    requires l' == l * lo && p' == p * x && h' == h * hi
    ensures l' <= p' <= h'
  {
    MulLeq(l, p, lo, x);
    MulLeq(p, h, x, hi);
  }

  lemma NothingMultiplied(xs: seq<real>, lo: real, hi: real)
    ensures Power(lo, 0) == Product(xs, 0) == Power(hi, 0)
  {
  }

  lemma {:induction false} ProductBounds(xs: seq<real>, lo: real, hi: real, n: nat)
    requires n <= |xs| && 0.0 < lo && Within(xs, lo, hi)
    ensures Power(lo, n) <= Product(xs, n) <= Power(hi, n)
  {
    hide Power, Product;
    if n == 0 {
      NothingMultiplied(xs, lo, hi);
    } else {
      SumSucc(xs, n - 1);
      PowerSucc(lo, n - 1);
      PowerSucc(hi, n - 1);
      ProductBounds(xs, lo, hi, n - 1);
      PowerPositive(lo, n - 1);
      ProductStep(Power(lo, n - 1), Product(xs, n - 1), Power(hi, n - 1), lo, xs[n - 1], hi,
                  Power(lo, n), Product(xs, n), Power(hi, n));
    }
  }

  lemma {:induction false} ProductPositive(xs: seq<real>, n: nat)
    requires n <= |xs| && Positive(xs)
    ensures Product(xs, n) > 0.0
  {
    if n == 0 {
    } else {
      ProductPositive(xs, n - 1);
      MulPositive(Product(xs, n - 1), xs[n - 1]);
    }
  }

  lemma {:induction false} SumPositive(xs: seq<real>, n: nat)
    requires 0 < n <= |xs| && Positive(xs)
    ensures Sum(xs, n) > 0.0
  {
    if n > 1 {
      SumPositive(xs, n - 1);
    } else {
      assert Sum(xs, 0) == 0.0;
    }
  }

  lemma {:induction false} SumBounds(xs: seq<real>, lo: real, hi: real, n: nat)
    requires n <= |xs| && Within(xs, lo, hi)
    ensures lo * n as real <= Sum(xs, n) <= hi * n as real
  {
    if n == 0 {
    } else {
      SumBounds(xs, lo, hi, n - 1);
      assert lo * n as real == lo * (n - 1) as real + lo;
      assert hi * n as real == hi * (n - 1) as real + hi;
    }
  }

  // ---- AM-GM ------------------------------------------------------------

  /** The tangent inequality `b^n >= a^(n-1) (n b - (n-1) a)`, strict from n = 2 on unless a == b. */
  lemma {:induction false} Tangent(a: real, b: real, n: nat)
    requires a > 0.0 && b > 0.0 && n > 0
    ensures Power(b, n) >= Power(a, n - 1) * (n as real * b - (n - 1) as real * a)
    ensures n > 1 && a != b ==> Power(b, n) > Power(a, n - 1) * (n as real * b - (n - 1) as real * a)
  {
    if n == 1 {
      assert Power(a, 0) == 1.0 && Power(b, 1) == Power(b, 0) * b == b;
    } else {
      Tangent(a, b, n - 1);
      PowerPositive(a, n - 2);
      TangentStep(a, b, (n - 1) as real, Power(a, n - 2), Power(b, n - 1));
      assert Power(a, n - 1) == Power(a, n - 2) * a;
      assert n as real == (n - 1) as real + 1.0 && (n - 2) as real == (n - 1) as real - 1.0;
    }
  }

  lemma TangentStep(a: real, b: real, m: real, p: real, q: real)
    requires a > 0.0 && b > 0.0 && m >= 1.0 && p > 0.0
    requires q >= p * (m * b - (m - 1.0) * a)
    ensures q * b >= p * a * ((m + 1.0) * b - m * a)
    ensures a != b ==> q * b > p * a * ((m + 1.0) * b - m * a)
  {
    var t := p * (m * b - (m - 1.0) * a);
    MulNonNegative(q - t, b);
    assert (q - t) * b == q * b - t * b;
    TangentGap(a, b, m, p, t * b, p * a * ((m + 1.0) * b - m * a));
  }

  lemma TangentGap(a: real, b: real, m: real, p: real, x: real, y: real)
    requires m > 0.0 && p > 0.0
    requires x == p * (m * b - (m - 1.0) * a) * b && y == p * a * ((m + 1.0) * b - m * a)
    ensures x >= y
    ensures a != b ==> x > y
  {
    MulPositive(p, m);
    TangentIdentity(a, b, m, p, x, y);
    SquareGap(p * m, b - a, x - y);
  }

  lemma TangentIdentity(a: real, b: real, m: real, p: real, x: real, y: real)
    requires x == p * (m * b - (m - 1.0) * a) * b && y == p * a * ((m + 1.0) * b - m * a)
    ensures x - y == p * m * ((b - a) * (b - a))
  {
  }

  lemma SquareGap(e: real, z: real, gap: real)
    requires e > 0.0 && gap == e * (z * z)
    ensures gap >= 0.0
    ensures z != 0.0 ==> gap > 0.0
  {
    if z > 0.0 {
      CubicPositive(e, z, gap);
    } else if z < 0.0 {
      CubicPositive(e, -z, gap);
    }
  }

  lemma CubicPositive(e: real, y: real, gap: real)
    requires e > 0.0 && y > 0.0 && gap == e * y * y
    ensures gap > 0.0
  {
    MulPositive(e, y);
    MulPositive(e * y, y);
  }

  lemma MeanStep(a: real, b: real, n: nat, x: real, p: real)
    requires a > 0.0 && b > 0.0 && x > 0.0 && n > 1 && n as real * b - (n - 1) as real * a == x
    requires 0.0 < p <= Power(a, n - 1)
    ensures p * x <= Power(b, n)
    ensures p * x == Power(b, n) ==> p == Power(a, n - 1) && x == a == b
  {
    Tangent(a, b, n);
    var q := n as real * b - (n - 1) as real * a;
    assert Power(a, n - 1) * q == Power(a, n - 1) * x;
    MulLeq(p, Power(a, n - 1), x, x);
    if a == b {
      assert n as real * a - (n - 1) as real * a == a;
    }
  }

  lemma MeanPositive(xs: seq<real>, n: nat)
    requires 0 < n <= |xs| && Positive(xs)
    ensures Mean(xs, n) > 0.0
  {
    SumPositive(xs, n);
    QuotientPositive(Sum(xs, n), n as real);
  }

  lemma OneRatio(xs: seq<real>)
    requires xs != []
    ensures Mean(xs, 1) == xs[0] && Product(xs, 1) == xs[0] == Power(xs[0], 1)
  {
    assert Sum(xs, 0) == 0.0 && Product(xs, 0) == 1.0;
    assert Power(xs[0], 1) == Power(xs[0], 0) * xs[0];
  }

  lemma {:induction false} ProductBelowMean(xs: seq<real>, n: nat)
    requires 0 < n <= |xs| && Positive(xs)
    ensures Mean(xs, n) > 0.0
    ensures Product(xs, n) <= Power(Mean(xs, n), n)
    ensures Product(xs, n) == Power(Mean(xs, n), n) ==> AllEqual(xs, n)
  {
    hide Power, Product, Sum, Mean;
    MeanPositive(xs, n);
    if n == 1 {
      OneRatio(xs);
    } else {
      var x, a, b := xs[n - 1], Mean(xs, n - 1), Mean(xs, n);
      ProductBelowMean(xs, n - 1);
      MeanWeights(xs, n);
      ProductPositive(xs, n - 1);
      SumSucc(xs, n - 1);
      MeanStep(a, b, n, x, Product(xs, n - 1));
      if Product(xs, n) == Power(b, n) {
        EqualMean(xs, n - 1);
      }
    }
  }

  /** The last element in terms of the means with and without it. */
  lemma MeanWeights(xs: seq<real>, n: nat)
    requires 1 < n <= |xs|
    ensures n as real * Mean(xs, n) - (n - 1) as real * Mean(xs, n - 1) == xs[n - 1]
  {
    assert Mean(xs, n) * n as real == Sum(xs, n);
    assert Mean(xs, n - 1) * (n - 1) as real == Sum(xs, n - 1);
  }

  lemma {:induction false} EqualMean(xs: seq<real>, n: nat)
    requires 0 < n <= |xs| && AllEqual(xs, n)
    ensures Mean(xs, n) == xs[0]
    ensures Product(xs, n) == Power(xs[0], n)
  {
    hide Power, Product, Sum, Mean;
    if n == 1 {
      OneRatio(xs);
    } else {
      EqualMean(xs, n - 1);
      MeanWeights(xs, n);
      SumSucc(xs, n - 1);
      PowerSucc(xs[0], n - 1);
      assert (n - 1) as real * xs[0] + xs[0] == n as real * xs[0];
      CancelLeq(Mean(xs, n), xs[0], n as real);
      CancelLeq(xs[0], Mean(xs, n), n as real);
    }
  }

  lemma GeometricMeanUnique(xs: seq<real>, g: real, h: real)
    requires xs != [] && IsGeometricMean(g, xs) && IsGeometricMean(h, xs)
    ensures g == h
  {
    if g < h {
      PowerStrict(g, h, |xs|);
    } else if h < g {
      PowerStrict(h, g, |xs|);
    }
  }

  /** AM-GM: the geometric mean is at most the arithmetic one, with equality exactly when all ratios are equal. */
  lemma GeometricBelowArithmetic(xs: seq<real>, g: real)
    requires xs != [] && Positive(xs) && IsGeometricMean(g, xs)
    ensures g <= Mean(xs)
    ensures g == Mean(xs) <==> AllEqual(xs)
  {
    ProductBelowMean(xs, |xs|);
    if g > Mean(xs) {
      PowerStrict(Mean(xs), g, |xs|);
    }
    if AllEqual(xs) {
      EqualMean(xs, |xs|);
      GeometricMeanUnique(xs, g, Mean(xs));
    }
  }

  lemma MeanBounds(xs: seq<real>, lo: real, hi: real)
    requires xs != [] && Within(xs, lo, hi)
    ensures lo <= Mean(xs) <= hi
  {
    SumBounds(xs, lo, hi, |xs|);
    QuotientBounds(Sum(xs), |xs| as real, lo, hi);
  }

  /** The two means stay within the range of the ratios: lo <= geometric <= arithmetic <= hi. */
  lemma MeansOrdered(xs: seq<real>, g: real, lo: real, hi: real)
    requires xs != [] && Positive(xs) && IsGeometricMean(g, xs)
    requires 0.0 < lo && Within(xs, lo, hi)
    ensures lo <= g <= Mean(xs) <= hi
  {
    GeometricBelowArithmetic(xs, g);
    MeanBounds(xs, lo, hi);
    ProductBounds(xs, lo, hi, |xs|);
    if g < lo {
      PowerStrict(g, lo, |xs|);
    }
  }

  // ---- weighted mean ----------------------------------------------------

  lemma {:induction false} DotBounds(ws: seq<real>, rs: seq<real>, lo: real, hi: real, n: nat)
    requires n <= |ws| == |rs| && Positive(ws) && Within(rs, lo, hi)
    ensures lo * Sum(ws, n) <= Dot(ws, rs, n) <= hi * Sum(ws, n)
  {
    hide Sum, Dot;
    if n == 0 {
      EmptySums(ws, rs);
    } else {
      var m := n - 1;
      DotSucc(ws, rs, m);
      DotBounds(ws, rs, lo, hi, m);
      assert Dot(ws, rs, n) == Dot(ws, rs, m) + ws[m] * rs[m];
      DotStep(ws[m], rs[m], Sum(ws, m), Dot(ws, rs, m), lo, hi, Sum(ws, n), Dot(ws, rs, n));
    }
  }

  lemma DotStep(w: real, r: real, s: real, d: real, lo: real, hi: real, s': real, d': real)
    requires w > 0.0 && lo <= r <= hi && lo * s <= d <= hi * s
    requires s' == s + w && d' == d + w * r
    ensures lo * s' <= d' <= hi * s'
  {
    MulNonNegative(w, r - lo);
    MulNonNegative(w, hi - r);
    assert w * (r - lo) == w * r - lo * w && w * (hi - r) == hi * w - w * r;
    assert lo * (s + w) == lo * s + lo * w && hi * (s + w) == hi * s + hi * w;
  }

  /** The weighted mean lies within the range of the ratios. */
  lemma WeightedMeanBounds(ws: seq<real>, rs: seq<real>, lo: real, hi: real)
    requires |ws| == |rs| && ws != [] && Positive(ws) && Within(rs, lo, hi)
    ensures Sum(ws) > 0.0 && lo <= WeightedMean(ws, rs) <= hi
  {
    SumPositive(ws, |ws|);
    DotBounds(ws, rs, lo, hi, |ws|);
    QuotientBounds(Dot(ws, rs), Sum(ws), lo, hi);
  }

  lemma {:induction false} DotConstant(w: real, ws: seq<real>, rs: seq<real>, n: nat)
    requires n <= |ws| == |rs| && forall i :: 0 <= i < |ws| ==> ws[i] == w
    ensures Dot(ws, rs, n) == w * Sum(rs, n) && Sum(ws, n) == w * n as real
  {
    if n == 0 {
    } else {
      DotConstant(w, ws, rs, n - 1);
      assert w * n as real == w * (n - 1) as real + w;
      assert w * (Sum(rs, n - 1) + rs[n - 1]) == w * Sum(rs, n - 1) + w * rs[n - 1];
    }
  }

  /** With equal weights the weighted mean is the arithmetic one. */
  lemma EqualWeights(w: real, ws: seq<real>, rs: seq<real>)
    requires |ws| == |rs| && ws != [] && w > 0.0 && forall i :: 0 <= i < |ws| ==> ws[i] == w
    ensures Sum(ws) > 0.0 && WeightedMean(ws, rs) == Mean(rs)
  {
    SumPositive(ws, |ws|);
    DotConstant(w, ws, rs, |ws|);
    QuotientsOrdered(Sum(rs), |rs| as real, Dot(ws, rs), Sum(ws));
    QuotientsOrdered(Dot(ws, rs), Sum(ws), Sum(rs), |rs| as real);
  }

  /** Weight and ratio of two samples compare the same way. */
  predicate SameOrder(w: real, r: real, w': real, r': real) {
    (w - w') * (r - r') >= 0.0
  }

  ghost predicate SimilarlyOrdered(ws: seq<real>, rs: seq<real>) {
    |ws| == |rs| && forall i, j :: 0 <= i < j < |ws| ==> SameOrder(ws[i], rs[i], ws[j], rs[j])
  }

  /** One element against the first n: the increment of the Chebyshev double sum is not negative. */
  predicate RowAboveZero(w: real, r: real, n: real, s: real, t: real, d: real) {
    d + n * (w * r) - w * t - r * s >= 0.0
  }

  predicate ChebyshevHolds(n: real, s: real, t: real, d: real) {
    n * d >= s * t
  }

  lemma {:induction false} ChebyshevRow(w: real, r: real, ws: seq<real>, rs: seq<real>, n: nat)
    requires n <= |ws| == |rs| && forall i :: 0 <= i < n ==> SameOrder(ws[i], rs[i], w, r)
    ensures RowAboveZero(w, r, n as real, Sum(ws, n), Sum(rs, n), Dot(ws, rs, n))
  {
    hide Sum, Dot, SameOrder, RowAboveZero;
    if n == 0 {
      RowNone(w, r, ws, rs);
    } else {
      DotSucc(ws, rs, n - 1);
      ChebyshevRow(w, r, ws, rs, n - 1);
      RowStep(ws[n - 1], rs[n - 1], w, r, (n - 1) as real, Sum(ws, n - 1), Sum(rs, n - 1), Dot(ws, rs, n - 1),
              n as real, Sum(ws, n), Sum(rs, n), Dot(ws, rs, n));
    }
  }

  lemma RowNone(w: real, r: real, ws: seq<real>, rs: seq<real>)
    requires |ws| == |rs|
    ensures RowAboveZero(w, r, 0 as real, Sum(ws, 0), Sum(rs, 0), Dot(ws, rs, 0))
    ensures ChebyshevHolds(0 as real, Sum(ws, 0), Sum(rs, 0), Dot(ws, rs, 0))
  {
  }

  lemma RowStep(a: real, b: real, w: real, r: real, n: real, s: real, t: real, d: real,
                n': real, s': real, t': real, d': real)
    requires SameOrder(a, b, w, r) && RowAboveZero(w, r, n, s, t, d)
    requires n' == n + 1.0 && s' == s + a && t' == t + b && d' == d + a * b
    ensures RowAboveZero(w, r, n', s', t', d')
  {
    assert (a - w) * (b - r) == a * b - a * r - w * b + w * r;
    assert (n + 1.0) * (w * r) == n * (w * r) + w * r;
    assert w * (t + b) == w * t + w * b && r * (s + a) == r * s + r * a;
  }

  /** Chebyshev's sum inequality for the first n samples. */
  lemma {:induction false} Chebyshev(ws: seq<real>, rs: seq<real>, n: nat)
    requires SimilarlyOrdered(ws, rs) && n <= |ws|
    ensures ChebyshevHolds(n as real, Sum(ws, n), Sum(rs, n), Dot(ws, rs, n))
  {
    hide Sum, Dot, SameOrder, RowAboveZero, ChebyshevHolds;
    if n == 0 {
      RowNone(0.0, 0.0, ws, rs);
    } else {
      var m := n - 1;
      DotSucc(ws, rs, m);
      Chebyshev(ws, rs, m);
      ChebyshevRow(ws[m], rs[m], ws, rs, m);
      ChebyshevStep(m as real, ws[m], rs[m], Sum(ws, m), Sum(rs, m), Dot(ws, rs, m),
                    n as real, Sum(ws, n), Sum(rs, n), Dot(ws, rs, n));
    }
  }

  lemma ChebyshevStep(n: real, w: real, r: real, s: real, t: real, d: real,
                      n': real, s': real, t': real, d': real)
    requires ChebyshevHolds(n, s, t, d) && RowAboveZero(w, r, n, s, t, d)
    requires n' == n + 1.0 && s' == s + w && t' == t + r && d' == d + w * r
    ensures ChebyshevHolds(n', s', t', d')
  {
    assert (n + 1.0) * (d + w * r) == n * d + d + n * (w * r) + w * r;
    assert (s + w) * (t + r) == s * t + r * s + w * t + w * r;
  }

  /** When larger workloads have larger ratios, weighting by workload does not lower the mean. */
  lemma WeightedAboveArithmetic(ws: seq<real>, rs: seq<real>)
    requires SimilarlyOrdered(ws, rs) && ws != [] && Positive(ws)
    ensures Sum(ws) > 0.0 && WeightedMean(ws, rs) >= Mean(rs)
  {
    hide Sum, Dot;
    SumPositive(ws, |ws|);
    Chebyshev(ws, rs, |ws|);
    QuotientsOrdered(Sum(rs), |rs| as real, Dot(ws, rs), Sum(ws));
  }
}

/** The type-7 quantile of a sorted sample (harness/aggregate.py `_quantile`). */
module Quantile {
  import opened RealArithmetic
  import opened Text

  function Ceiling(x: real): int {
    -(-x).Floor
  }

  function Position(n: nat, q: real): real
    requires n > 0
  {
    q * (n - 1) as real
  }

  lemma PositionInRange(n: nat, q: real)
    requires 0.0 <= q <= 1.0 && n > 0
    ensures 0.0 <= Position(n, q) <= (n - 1) as real
    ensures Position(n, 0.0) == 0.0 && Position(n, 1.0) == (n - 1) as real
  {
    PositionMonotone(n, 0.0, q);
    PositionMonotone(n, q, 1.0);
  }

  lemma PositionMonotone(n: nat, q: real, r: real)
    requires q <= r && n > 0
    ensures Position(n, q) <= Position(n, r)
  {
    var m := (n - 1) as real;
    assert (r - q) * m >= 0.0;
    assert (r - q) * m == r * m - q * m;
  }

  /** Linear interpolation between the elements around a position. */
  function AtPosition(xs: seq<real>, pos: real): real
    requires 0.0 <= pos <= (|xs| - 1) as real
  {
    var lo, hi := pos.Floor, Ceiling(pos);
    var frac := pos - lo as real;
    if lo == hi then xs[lo] else xs[lo] + (xs[hi] - xs[lo]) * frac
  }

  /** `None` stands for the ValueError on an empty sequence. */
  function QuantileOf(xs: seq<real>, q: real): (r: Option<real>)
    requires 0.0 <= q <= 1.0
    ensures r.None? <==> xs == []
  {
    var n := |xs|;
    if n == 0 then None
    else if n == 1 then Some(xs[0])
    else
      PositionInRange(n, q);
      Some(AtPosition(xs, Position(n, q)))
  }

  ghost predicate Ascending(xs: seq<real>) {
    forall i, j :: 0 <= i < j < |xs| ==> xs[i] <= xs[j]
  }

  lemma CeilingCases(pos: real)
    ensures pos == pos.Floor as real ==> Ceiling(pos) == pos.Floor
    ensures pos != pos.Floor as real ==> Ceiling(pos) == pos.Floor + 1
  {
  }

  lemma QuantileAtPosition(xs: seq<real>, q: real)
    requires xs != [] && 0.0 <= q <= 1.0
    ensures 0.0 <= Position(|xs|, q) <= (|xs| - 1) as real
    ensures QuantileOf(xs, q) == Some(AtPosition(xs, Position(|xs|, q)))
  {
    PositionInRange(|xs|, q);
    hide Position;
  }

  lemma InterpolateBounds(a: real, b: real, t: real, v: real)
    requires a <= b && 0.0 <= t <= 1.0 && v == a + (b - a) * t
    ensures a <= v <= b
  {
    var d := b - a;
    assert v == a + d * t;
    MulNonNegative(d, t);
    MulNonNegative(d, 1.0 - t);
    assert d * (1.0 - t) == d - d * t;
  }

  /** The quantile lies between the two order statistics around its position. */
  lemma BetweenNeighbours(xs: seq<real>, pos: real)
    requires Ascending(xs) && 0.0 <= pos <= (|xs| - 1) as real
    ensures var lo, hi := pos.Floor, Ceiling(pos);
            0 <= lo <= hi < |xs| && xs[lo] <= AtPosition(xs, pos) <= xs[hi]
  {
    CeilingCases(pos);
    var i := pos.Floor;
    if pos != i as real {
      InterpolateBounds(xs[i], xs[i + 1], pos - i as real, AtPosition(xs, pos));
    }
  }

  /** Monotone in the position, within a segment and across segment boundaries. */
  lemma AtPositionMonotone(xs: seq<real>, p: real, r: real)
    requires Ascending(xs) && 0.0 <= p <= r <= (|xs| - 1) as real
    ensures AtPosition(xs, p) <= AtPosition(xs, r)
  {
    CeilingCases(p);
    CeilingCases(r);
    BetweenNeighbours(xs, p);
    BetweenNeighbours(xs, r);
    var i, j := p.Floor, r.Floor;
    if i < j {
      assert Ceiling(p) <= j;
    } else if p != i as real {
      Interpolate(xs[i], xs[i + 1], p - i as real, r - i as real);
    }
  }

  /** A quantile does not fall when q grows. */
  lemma QuantileMonotone(xs: seq<real>, q: real, r: real)
    requires Ascending(xs) && xs != [] && 0.0 <= q <= r <= 1.0
    ensures QuantileOf(xs, q).Some? && QuantileOf(xs, r).Some?
    ensures QuantileOf(xs, q).value <= QuantileOf(xs, r).value
  {
    hide Position, AtPosition;
    QuantileAtPosition(xs, q);
    QuantileAtPosition(xs, r);
    PositionMonotone(|xs|, q, r);
    AtPositionMonotone(xs, Position(|xs|, q), Position(|xs|, r));
  }

  /** Raising samples does not lower a quantile. */
  lemma QuantileMonotoneInData(xs: seq<real>, ys: seq<real>, q: real)
    requires |xs| == |ys| > 0 && 0.0 <= q <= 1.0
    requires forall i :: 0 <= i < |xs| ==> xs[i] <= ys[i]
    ensures QuantileOf(xs, q).Some? && QuantileOf(ys, q).Some?
    ensures QuantileOf(xs, q).value <= QuantileOf(ys, q).value
  {
    hide Position;
    QuantileAtPosition(xs, q);
    QuantileAtPosition(ys, q);
    var pos := Position(|xs|, q);
    CeilingCases(pos);
    var i := pos.Floor;
    if pos != i as real {
      Blend(xs[i], xs[i + 1], ys[i], ys[i + 1], pos - i as real);
    }
  }

  /** The extreme quantiles are the extreme samples. */
  lemma QuantileEnds(xs: seq<real>)
    requires xs != []
    ensures QuantileOf(xs, 0.0) == Some(xs[0]) && QuantileOf(xs, 1.0) == Some(xs[|xs| - 1])
  {
    hide Position;
    PositionInRange(|xs|, 0.0);
    QuantileAtPosition(xs, 0.0);
    QuantileAtPosition(xs, 1.0);
    CeilingCases(0.0);
    CeilingCases((|xs| - 1) as real);
  }

  /** The published order: min <= p25 <= median <= p75 <= max, each between its neighbours. */
  lemma QuantilesOrdered(xs: seq<real>)
    requires Ascending(xs) && xs != []
    ensures xs[0] <= QuantileOf(xs, 0.25).value <= QuantileOf(xs, 0.5).value
            <= QuantileOf(xs, 0.75).value <= xs[|xs| - 1]
  {
    hide QuantileOf;
    QuantileEnds(xs);
    QuantileMonotone(xs, 0.0, 0.25);
    QuantileMonotone(xs, 0.25, 0.5);
    QuantileMonotone(xs, 0.5, 0.75);
    QuantileMonotone(xs, 0.75, 1.0);
  }

  // ---- the interpolation ------------------------------------------------

  /** The share of the sample at distance `d` from a position: 1 on it, falling to 0 one sample away. */
  function Hat(d: real): real {
    if -1.0 < d < 0.0 then 1.0 + d else if 0.0 <= d < 1.0 then 1.0 - d else 0.0
  }

  /** The first `n` samples, each counted by its share at `pos`. */
  function Blended(xs: seq<real>, pos: real, n: nat): real
    requires n <= |xs|
  {
    if n == 0 then 0.0 else Blended(xs, pos, n - 1) + xs[n - 1] * Hat(pos - (n - 1) as real)
  }

  lemma BlendedStep(xs: seq<real>, pos: real, n: nat, h: real, sum: real)
    requires n < |xs| && h == Hat(pos - n as real) && sum == Blended(xs, pos, n)
    ensures Blended(xs, pos, n + 1) == sum + xs[n] * h
  {
  }

  lemma {:induction false} BlendedBefore(xs: seq<real>, pos: real, n: nat)
    requires n <= |xs| && n as real <= pos
    ensures Blended(xs, pos, n) == 0.0
  {
    if n == 0 {
    } else {
      BlendedBefore(xs, pos, n - 1);
      BlendedStep(xs, pos, n - 1, 0.0, 0.0);
    }
  }

  lemma {:induction false} BlendedAfter(xs: seq<real>, pos: real, m: nat, n: nat)
    requires m <= n <= |xs| && pos + 1.0 <= m as real
    ensures Blended(xs, pos, n) == Blended(xs, pos, m)
  {
    if n == m {
    } else {
      BlendedAfter(xs, pos, m, n - 1);
      BlendedStep(xs, pos, n - 1, 0.0, Blended(xs, pos, m));
    }
  }

  lemma BlendOfTwo(a: real, b: real, f: real, v: real)
    requires v == a + (b - a) * f
    ensures a * (1.0 - f) + b * f == v
  {
  }

  lemma AtPositionIsBlended(xs: seq<real>, pos: real)
    requires 0.0 <= pos <= (|xs| - 1) as real
    ensures AtPosition(xs, pos) == Blended(xs, pos, |xs|)
  {
    CeilingCases(pos);
    var i := pos.Floor;
    var f := pos - i as real;
    BlendedBefore(xs, pos, i);
    BlendedStep(xs, pos, i, 1.0 - f, 0.0);
    if f == 0.0 {
      BlendedAfter(xs, pos, i + 1, |xs|);
    } else {
      BlendedStep(xs, pos, i + 1, f, xs[i] * (1.0 - f));
      BlendOfTwo(xs[i], xs[i + 1], f, AtPosition(xs, pos));
      BlendedAfter(xs, pos, i + 2, |xs|);
    }
  }

  /** A quantile is the blend of all samples around the position `q * (n - 1)`, for every `q`. */
  lemma QuantileIsBlended(xs: seq<real>, q: real, pos: real)
    requires xs != [] && 0.0 <= q <= 1.0 && pos == q * (|xs| - 1) as real
    ensures QuantileOf(xs, q) == Some(Blended(xs, pos, |xs|))
  {
    hide AtPosition;
    QuantileAtPosition(xs, q);
    AtPositionIsBlended(xs, Position(|xs|, q));
  }

  lemma HalfPosition(n: nat, pos: real)
    requires n > 0 && pos == Position(n, 0.5)
    ensures 0.0 <= pos <= (n - 1) as real
    ensures if n % 2 == 1 then pos == ((n - 1) / 2) as real else pos == (n / 2 - 1) as real + 0.5
  {
    if n % 2 == 1 {
      assert n - 1 == 2 * ((n - 1) / 2);
    } else {
      assert n == 2 * (n / 2);
    }
  }

  /** The median is halfway between the two samples in the middle, which are one if their number is odd. */
  lemma MedianIsMiddle(xs: seq<real>)
    requires xs != []
    ensures 2.0 * QuantileOf(xs, 0.5).value == xs[(|xs| - 1) / 2] + xs[|xs| / 2]
  {
    hide Position;
    var n := |xs|;
    var pos := Position(n, 0.5);
    QuantileAtPosition(xs, 0.5);
    HalfPosition(n, pos);
    CeilingCases(pos);
    if n % 2 == 1 {
      assert pos.Floor == (n - 1) / 2 == n / 2;
    } else {
      assert pos.Floor == n / 2 - 1 == (n - 1) / 2;
    }
  }

  lemma ProgressionPoint(a: real, d: real, lo: real, hi: real, f: real, v: real)
    requires hi == lo + 1.0 && v == (a + d * lo) + ((a + d * hi) - (a + d * lo)) * f
    ensures v == a + d * (lo + f)
  {
    assert d * hi == d * lo + d;
    assert v == a + d * lo + d * f;
  }

  lemma ProgressionAt(xs: seq<real>, a: real, d: real, pos: real)
    requires 0.0 <= pos <= (|xs| - 1) as real
    requires forall j | 0 <= j < |xs| :: xs[j] == a + d * j as real
    ensures AtPosition(xs, pos) == a + d * pos
  {
    CeilingCases(pos);
    var i := pos.Floor;
    if pos != i as real {
      ProgressionPoint(a, d, i as real, (i + 1) as real, pos - i as real, AtPosition(xs, pos));
    }
  }

  lemma ScaledPoint(a: real, d: real, q: real, m: real, pos: real, v: real)
    requires pos == q * m && v == a + d * pos
    ensures v == a + d * q * m
  {
  }

  /** On evenly spaced samples a quantile is the point that far along the line. */
  lemma QuantileOfProgression(xs: seq<real>, a: real, d: real, q: real)
    requires xs != [] && 0.0 <= q <= 1.0
    requires forall j | 0 <= j < |xs| :: xs[j] == a + d * j as real
    ensures QuantileOf(xs, q).value == a + d * q * (|xs| - 1) as real
  {
    hide AtPosition;
    QuantileAtPosition(xs, q);
    var pos := Position(|xs|, q);
    ProgressionAt(xs, a, d, pos);
    ScaledPoint(a, d, q, (|xs| - 1) as real, pos, AtPosition(xs, pos));
  }
}

/** Raising ratios, weights kept, lowers no reducer of a ratio summary (harness/aggregate.py). */
module RatioMonotone {
  import opened Ordering
  import opened RealArithmetic
  import opened Means
  import opened Quantile
  import opened Ratios

  predicate PointwiseLeq(xs: seq<real>, ys: seq<real>) {
    |xs| == |ys| && forall i | 0 <= i < |xs| :: xs[i] <= ys[i]
  }

  // ---- order statistics -------------------------------------------------

  lemma PointwiseTail(xs: seq<real>, ys: seq<real>)
    requires PointwiseLeq(xs, ys) && xs != []
    ensures ys != [] && xs[0] <= ys[0] && PointwiseLeq(xs[1..], ys[1..])
  {
  }

  lemma PointwiseCons(x: real, xs: seq<real>, y: real, ys: seq<real>)
    requires x <= y && PointwiseLeq(xs, ys)
    ensures PointwiseLeq([x] + xs, [y] + ys)
  {
  }

  lemma InsertStep(x: real, xs: seq<real>)
    ensures Insert(RealLeq, x, xs)
         == if xs == [] || x <= xs[0] then [x] + xs else [xs[0]] + Insert(RealLeq, x, xs[1..])
  {
  }

  /** A first element that is least is where inserting it puts it. */
  lemma InsertFirst(xs: seq<real>)
    requires xs != [] && Ascending(xs)
    ensures Insert(RealLeq, xs[0], xs[1..]) == xs && Ascending(xs[1..])
  {
    InsertStep(xs[0], xs[1..]);
    assert xs == [xs[0]] + xs[1..];
  }

  lemma {:induction false} InsertMonotone(x: real, xs: seq<real>, y: real, ys: seq<real>)
    requires x <= y && PointwiseLeq(xs, ys) && Ascending(xs) && Ascending(ys)
    ensures PointwiseLeq(Insert(RealLeq, x, xs), Insert(RealLeq, y, ys))
    decreases |xs|
  {
    hide Insert, PointwiseLeq, Ascending;
    InsertStep(x, xs);
    InsertStep(y, ys);
    if xs == [] {
      assert ys == [] by { SameLength(xs, ys); }
      PointwiseCons(x, xs, y, ys);
    } else {
      PointwiseTail(xs, ys);
      InsertFirst(xs);
      InsertFirst(ys);
      if x <= xs[0] && y <= ys[0] {
        PointwiseCons(x, xs, y, ys);
      } else if x <= xs[0] {
        InsertMonotone(xs[0], xs[1..], y, ys[1..]);
        PointwiseCons(x, xs, ys[0], Insert(RealLeq, y, ys[1..]));
      } else if y <= ys[0] {
        InsertMonotone(x, xs[1..], ys[0], ys[1..]);
        PointwiseCons(xs[0], Insert(RealLeq, x, xs[1..]), y, ys);
      } else {
        InsertMonotone(x, xs[1..], y, ys[1..]);
        PointwiseCons(xs[0], Insert(RealLeq, x, xs[1..]), ys[0], Insert(RealLeq, y, ys[1..]));
      }
    }
  }

  lemma SameLength(xs: seq<real>, ys: seq<real>)
    requires PointwiseLeq(xs, ys)
    ensures |xs| == |ys|
  {
  }

  /** Sorting keeps a pointwise order of two lists: each order statistic is in it. */
  lemma {:induction false} SortMonotone(xs: seq<real>, ys: seq<real>)
    requires PointwiseLeq(xs, ys)
    ensures PointwiseLeq(SortedRatios(xs), SortedRatios(ys))
  {
    if xs == [] {
      assert SortedRatios(xs) == SortedRatios(ys) == [];
    } else {
      hide Insert, PointwiseLeq, Ascending;
      SameLength(xs, ys);
      PointwiseTail(xs, ys);
      SortMonotone(xs[1..], ys[1..]);
      InsertMonotone(xs[0], SortedRatios(xs[1..]), ys[0], SortedRatios(ys[1..]));
    }
  }

  // ---- means ------------------------------------------------------------

  lemma {:induction false} SumMonotone(xs: seq<real>, ys: seq<real>, n: nat)
    requires PointwiseLeq(xs, ys) && n <= |xs|
    ensures Sum(xs, n) <= Sum(ys, n)
  {
    if n == 0 {
    } else {
      SumMonotone(xs, ys, n - 1);
    }
  }

  lemma {:induction false} ProductMonotone(xs: seq<real>, ys: seq<real>, n: nat)
    requires PointwiseLeq(xs, ys) && Positive(xs) && n <= |xs|
    ensures 0.0 < Product(xs, n) <= Product(ys, n)
  {
    hide Product, Sum;
    if n == 0 {
      NothingMultiplied(xs, 1.0, 1.0);
      NothingMultiplied(ys, 1.0, 1.0);
      assert Power(1.0, 0) == 1.0;
    } else {
      ProductMonotone(xs, ys, n - 1);
      SumSucc(xs, n - 1);
      SumSucc(ys, n - 1);
      MulPositive(Product(xs, n - 1), xs[n - 1]);
      MulLeq(Product(xs, n - 1), Product(ys, n - 1), xs[n - 1], ys[n - 1]);
    }
  }

  lemma WeighOneMore(d: real, e: real, w: real, x: real, y: real, d': real, e': real)
    requires d <= e && w > 0.0 && x <= y && d' == d + w * x && e' == e + w * y
    ensures d' <= e'
  {
    var z, p, q := y - x, w * x, w * y;
    MulNonNegative(w, z);
    assert q - p == w * z;
  }

  lemma NothingWeighed(ws: seq<real>, xs: seq<real>, ys: seq<real>)
    requires |ws| == |xs| == |ys|
    ensures Dot(ws, xs, 0) == Dot(ws, ys, 0)
  {
  }

  lemma {:induction false} DotMonotone(ws: seq<real>, xs: seq<real>, ys: seq<real>, n: nat)
    requires PointwiseLeq(xs, ys) && Positive(ws) && n <= |ws| == |xs|
    ensures Dot(ws, xs, n) <= Dot(ws, ys, n)
  {
    hide Dot, Sum;
    if n == 0 {
      NothingWeighed(ws, xs, ys);
    } else {
      var m := n - 1;
      DotMonotone(ws, xs, ys, m);
      DotSucc(ws, xs, m);
      DotSucc(ws, ys, m);
      assert Dot(ws, xs, n) == Dot(ws, xs, m) + ws[m] * xs[m];
      assert Dot(ws, ys, n) == Dot(ws, ys, m) + ws[m] * ys[m];
      WeighOneMore(Dot(ws, xs, m), Dot(ws, ys, m), ws[m], xs[m], ys[m], Dot(ws, xs, n), Dot(ws, ys, n));
    }
  }

  lemma MeanMonotone(xs: seq<real>, ys: seq<real>)
    requires PointwiseLeq(xs, ys) && xs != []
    ensures Mean(xs) <= Mean(ys)
  {
    SumMonotone(xs, ys, |xs|);
    DivideLeq(Sum(xs), Sum(ys), |xs| as real);
  }

  lemma GeometricMonotone(xs: seq<real>, ys: seq<real>, g: real, h: real)
    requires PointwiseLeq(xs, ys) && Positive(xs) && xs != [] && IsGeometricMean(g, xs) && IsGeometricMean(h, ys)
    ensures g <= h
  {
    ProductMonotone(xs, ys, |xs|);
    if h < g {
      PowerStrict(h, g, |xs|);
    }
  }

  lemma WeightedMonotone(ws: seq<real>, xs: seq<real>, ys: seq<real>)
    requires PointwiseLeq(xs, ys) && Positive(ws) && ws != [] && |ws| == |xs|
    ensures Sum(ws) > 0.0 && WeightedMean(ws, xs) <= WeightedMean(ws, ys)
  {
    SumPositive(ws, |ws|);
    DotMonotone(ws, xs, ys, |ws|);
    DivideLeq(Dot(ws, xs), Dot(ws, ys), Sum(ws));
  }

  // ---- the reducers -----------------------------------------------------

  /** Two lists of usable samples with the same weights, the ratios of the first at most those of the second. */
  predicate Below(xs: seq<WeightedSample>, ys: seq<WeightedSample>) {
    |xs| == |ys| && forall i | 0 <= i < |xs| :: SampleBelow(xs[i], ys[i])
  }

  predicate SampleBelow(x: WeightedSample, y: WeightedSample) {
    IsPositiveFinite(x.ratio) && IsPositiveFinite(y.ratio) && x.ratio.v <= y.ratio.v && x.weight == y.weight
  }

  predicate ReducersBelow(a: Reducers, b: Reducers) {
    && a.arithmeticMean <= b.arithmeticMean && a.geometricMean <= b.geometricMean
    && (a.workloadWeightedMean.Some? <==> b.workloadWeightedMean.Some?)
    && (a.workloadWeightedMean.Some? ==> a.workloadWeightedMean.value <= b.workloadWeightedMean.value)
    && a.median <= b.median && a.p25 <= b.p25 && a.p75 <= b.p75 && a.min <= b.min && a.max <= b.max
  }

  lemma BelowRatios(xs: seq<WeightedSample>, ys: seq<WeightedSample>)
    requires Below(xs, ys)
    ensures PointwiseLeq(RatiosOf(xs), RatiosOf(ys)) && Positive(RatiosOf(xs)) && WeightsOf(xs) == WeightsOf(ys)
  {
    assert forall i | 0 <= i < |xs| :: SampleBelow(xs[i], ys[i]);
  }

  lemma {:induction false} WeighableBelow(xs: seq<WeightedSample>, ys: seq<WeightedSample>)
    requires Below(xs, ys)
    ensures Below(Weighable(xs), Weighable(ys))
  {
    if xs == [] {
    } else {
      var n := |xs| - 1;
      assert SampleBelow(xs[n], ys[n]);
      WeighableBelow(xs[..n], ys[..n]);
    }
  }

  lemma WeightedMeansBelow(xs: seq<WeightedSample>, ys: seq<WeightedSample>)
    requires Below(xs, ys)
    ensures WorkloadWeightedMeanOf(xs).Some? <==> WorkloadWeightedMeanOf(ys).Some?
    ensures WorkloadWeightedMeanOf(xs).Some? ==>
              WorkloadWeightedMeanOf(xs).value <= WorkloadWeightedMeanOf(ys).value
  {
    hide Sum, Dot, Weighable;
    WeighableBelow(xs, ys);
    var ps, qs := Weighable(xs), Weighable(ys);
    BelowRatios(ps, qs);
    if ps != [] {
      WeightedMonotone(WeightsOf(ps), RatiosOf(ps), RatiosOf(qs));
    }
  }

  /** Every reducer is monotone in the ratios. */
  lemma ReducersMonotone(xs: seq<WeightedSample>, ys: seq<WeightedSample>, g: real, h: real)
    requires xs != [] && Below(xs, ys)
    requires IsGeometricMean(g, RatiosOf(xs)) && IsGeometricMean(h, RatiosOf(ys))
    ensures ys != [] && ReducersBelow(ReducersOf(xs, g), ReducersOf(ys, h))
  {
    hide Sum, Dot, WorkloadWeightedMeanOf, QuantileOf, SortedRatios, Mean, IsGeometricMean;
    var ps, qs := RatiosOf(xs), RatiosOf(ys);
    BelowRatios(xs, ys);
    MeanMonotone(ps, qs);
    GeometricMonotone(ps, qs, g, h);
    WeightedMeansBelow(xs, ys);
    SortMonotone(ps, qs);
    var ss, ts := SortedRatios(ps), SortedRatios(qs);
    QuantileMonotoneInData(ss, ts, 0.25);
    QuantileMonotoneInData(ss, ts, 0.5);
    QuantileMonotoneInData(ss, ts, 0.75);
  }
}

/** The two solver ratios of a topology and their corpus summaries (harness/pipeline.py): the headline
    one divides by simulate plus rib time, the other by simulate time alone. */
module SolverRatios {
  import opened RealArithmetic
  import opened Text
  import opened Means
  import opened Ratios
  import opened RatioMonotone
  import opened TrialTimings

  datatype Timed = Timed(
    name: string, batfishRoutes: nat, batfishSimulate: Option<real>, simulates: seq<real>, ribs: seq<real>)

  function Ratio(num: Option<real>, denom: Option<real>): Option<real> {
    if num.None? || denom.None? || denom.value <= 0.0 then None else Some(num.value / denom.value)
  }

  function AsymRatio(t: Timed): Option<real> {
    Ratio(t.batfishSimulate, MeanOrNone(t.simulates))
  }

  function FairRatio(t: Timed): Option<real> {
    Ratio(t.batfishSimulate, SimulatePlusRib(t.simulates, t.ribs))
  }

  lemma QuotientIs(n: real, d: real, r: real)
    requires d > 0.0
    ensures r == n / d <==> r * d == n
  {
    assert n / d * d == n;
    if r * d == n {
      CancelLeq(r, n / d, d);
      CancelLeq(n / d, r, d);
    }
  }

  /** A ratio is published exactly when both steps were timed and the denominator took some time, and
      it times its denominator is what Batfish took: simulate time for the one, and simulate time with
      whatever rib time there is for the other. */
  lemma RatiosMean(t: Timed, r: real)
    ensures AsymRatio(t) == Some(r) <==>
            && t.batfishSimulate.Some? && t.simulates != [] && Mean(t.simulates) > 0.0
            && r * Mean(t.simulates) == t.batfishSimulate.value
    ensures FairRatio(t) == Some(r) <==>
            && t.batfishSimulate.Some? && t.simulates != [] && Mean(t.simulates) + RibMean(t) > 0.0
            && r * (Mean(t.simulates) + RibMean(t)) == t.batfishSimulate.value
  {
    hide Mean, SimulatePlusRib;
    PairingIsAdding(t.simulates, t.ribs);
    if t.batfishSimulate.Some? && t.simulates != [] {
      var n, d := t.batfishSimulate.value, Mean(t.simulates);
      if d > 0.0 {
        QuotientIs(n, d, r);
      }
      if d + RibMean(t) > 0.0 {
        QuotientIs(n, d + RibMean(t), r);
      }
    }
  }

  /** Durations are not negative. */
  ghost predicate Measured(t: Timed) {
    && (t.batfishSimulate.Some? ==> t.batfishSimulate.value >= 0.0)
    && (forall x :: x in t.simulates ==> x >= 0.0) && (forall x :: x in t.ribs ==> x >= 0.0)
  }

  function RibMean(t: Timed): real {
    if t.ribs == [] then 0.0 else Mean(t.ribs)
  }

  lemma {:induction false} SumNonNegative(xs: seq<real>, n: nat)
    requires n <= |xs| && forall x :: x in xs ==> x >= 0.0
    ensures Sum(xs, n) >= 0.0
  {
    if n == 0 {
    } else {
      SumNonNegative(xs, n - 1);
      assert xs[n - 1] in xs;
    }
  }

  lemma RibMeanNonNegative(t: Timed)
    requires Measured(t)
    ensures RibMean(t) >= 0.0
  {
    if t.ribs != [] {
      SumNonNegative(t.ribs, |t.ribs|);
      DivideLeq(0.0, Sum(t.ribs), |t.ribs| as real);
    }
  }

  lemma LargerDenominator(n: real, d: real, r: real, e: real)
    requires n >= 0.0 && d > 0.0 && r >= 0.0 && e == d + r
    ensures n / e <= n / d
    ensures n / e == n / d <==> n == 0.0 || r == 0.0
  {
    var x, y := n / e, n / d;
    assert x * e == n && y * d == n;
    MulNonNegative(n, r);
    assert n * e == n * d + n * r;
    QuotientsOrdered(n, e, n, d);
    if x == y {
      assert x * e == x * d + x * r;
      assert x * r == 0.0;
      if r != 0.0 && n != 0.0 {
        QuotientPositive(n, e);
        MulPositive(x, r);
      }
    }
  }

  /** The ratio over simulate time alone is at least the headline ratio, and equals it exactly when
      Batfish took no time or the rib step took none: it is an upper bound of the headline. */
  lemma AsymAtLeastFair(t: Timed)
    requires Measured(t) && AsymRatio(t).Some?
    ensures FairRatio(t).Some? && FairRatio(t).value <= AsymRatio(t).value
    ensures FairRatio(t).value == AsymRatio(t).value <==> t.batfishSimulate.value == 0.0 || RibMean(t) == 0.0
  {
    hide Mean;
    PairingIsAdding(t.simulates, t.ribs);
    RibMeanNonNegative(t);
    var d, r := Mean(t.simulates), RibMean(t);
    LargerDenominator(t.batfishSimulate.value, d, r, d + r);
  }

  // ---- the corpus summaries ---------------------------------------------

  function SampleOf(t: Timed, ratio: Option<real>): WeightedSample {
    WeightedSample(t.name, Fin(ratio.GetOr(0.0)), Fin(if t.batfishRoutes > 0 then t.batfishRoutes as real else 1.0))
  }

  /** A topology without a positive ratio is left out; its weight is its route count, and 1 without routes. */
  lemma SampleMeans(t: Timed, ratio: Option<real>)
    ensures IsPositiveFinite(SampleOf(t, ratio).ratio) <==> ratio.Some? && ratio.value > 0.0
    ensures ratio.Some? ==> SampleOf(t, ratio).ratio == Fin(ratio.value)
    ensures SampleOf(t, ratio).weight in {Fin(1.0), Fin(t.batfishRoutes as real)}
    ensures SampleOf(t, ratio).weight.v >= 1.0 && SampleOf(t, ratio).weight.v >= t.batfishRoutes as real
  {
  }

  function AsymSamples(ts: seq<Timed>): seq<WeightedSample> {
    seq(|ts|, i requires 0 <= i < |ts| => SampleOf(ts[i], AsymRatio(ts[i])))
  }

  function FairSamples(ts: seq<Timed>): seq<WeightedSample> {
    seq(|ts|, i requires 0 <= i < |ts| => SampleOf(ts[i], FairRatio(ts[i])))
  }

  /** Whenever Hammerhead was timed its simulate step took some time. */
  ghost predicate TimedSimulate(t: Timed) {
    t.simulates != [] ==> Mean(t.simulates) > 0.0
  }

  lemma RatioPositive(n: real, d: real)
    requires d > 0.0 && n >= 0.0
    ensures n / d > 0.0 <==> n > 0.0
  {
    if n > 0.0 {
      QuotientPositive(n, d);
    }
  }

  /** The same topologies are usable for both summaries. */
  lemma UsableTogether(t: Timed)
    requires Measured(t) && TimedSimulate(t)
    ensures var a, f := SampleOf(t, AsymRatio(t)), SampleOf(t, FairRatio(t));
            && (IsPositiveFinite(a.ratio) <==> IsPositiveFinite(f.ratio))
            && (IsPositiveFinite(a.ratio) ==> SampleBelow(f, a))
  {
    hide Mean;
    PairingIsAdding(t.simulates, t.ribs);
    RibMeanNonNegative(t);
    if AsymRatio(t).Some? {
      AsymAtLeastFair(t);
      RatioPositive(t.batfishSimulate.value, Mean(t.simulates));
      RatioPositive(t.batfishSimulate.value, Mean(t.simulates) + RibMean(t));
    }
  }

  lemma BelowAppend(xs: seq<WeightedSample>, ys: seq<WeightedSample>, x: WeightedSample, y: WeightedSample)
    requires Below(xs, ys) && SampleBelow(x, y)
    ensures Below(xs + [x], ys + [y])
  {
  }

  lemma UsedAdds(init: seq<WeightedSample>, s: WeightedSample)
    ensures Used(init + [s]) == if IsPositiveFinite(s.ratio) then Used(init) + [s] else Used(init)
  {
    hide Used, Unused;
    AuditAdds(init, s);
    ExclusionIsFilter(s);
  }

  lemma SamplesAdd(init: seq<Timed>, t: Timed)
    ensures FairSamples(init + [t]) == FairSamples(init) + [SampleOf(t, FairRatio(t))]
    ensures AsymSamples(init + [t]) == AsymSamples(init) + [SampleOf(t, AsymRatio(t))]
  {
    hide SampleOf, FairRatio, AsymRatio;
  }

  lemma NothingBelow()
    ensures Below(Used(FairSamples([])), Used(AsymSamples([])))
  {
  }

  lemma {:induction false} UsedBelow(ts: seq<Timed>)
    requires forall t :: t in ts ==> Measured(t) && TimedSimulate(t)
    ensures Below(Used(FairSamples(ts)), Used(AsymSamples(ts)))
  {
    hide *;
    if ts == [] {
      NothingBelow();
    } else {
      var init, t := ts[..|ts| - 1], ts[|ts| - 1];
      assert ts == init + [t] && t in ts;
      UsedBelow(init);
      UsableTogether(t);
      var a, f := SampleOf(t, AsymRatio(t)), SampleOf(t, FairRatio(t));
      SamplesAdd(init, t);
      UsedAdds(FairSamples(init), f);
      UsedAdds(AsymSamples(init), a);
      if IsPositiveFinite(a.ratio) {
        BelowAppend(Used(FairSamples(init)), Used(AsymSamples(init)), f, a);
      }
    }
  }

  /** So every reducer of the summary of the asymmetric ratios is at least that of the headline. */
  lemma SummariesOrdered(ts: seq<Timed>, g: real, h: real)
    requires forall t :: t in ts ==> Measured(t) && TimedSimulate(t)
    requires Used(FairSamples(ts)) != [] && Used(AsymSamples(ts)) != []
    requires IsGeometricMean(g, RatiosOf(Used(FairSamples(ts))))
    requires IsGeometricMean(h, RatiosOf(Used(AsymSamples(ts))))
    ensures SummaryOf(FairSamples(ts), g).nUsed == SummaryOf(AsymSamples(ts), h).nUsed
    ensures ReducersBelow(SummaryOf(FairSamples(ts), g).reducers.value, SummaryOf(AsymSamples(ts), h).reducers.value)
  {
    hide Used, Unused, FairSamples, AsymSamples, ReducersOf, ReducersBelow, IsGeometricMean;
    UsedBelow(ts);
    ReducersMonotone(Used(FairSamples(ts)), Used(AsymSamples(ts)), g, h);
  }
}

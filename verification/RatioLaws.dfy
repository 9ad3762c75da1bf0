/** The ratio summary read off the raw samples (harness/aggregate.py): which are used, where each mean
    balances them, and which of them each quantile blends. */
module RatioLaws {
  import opened RealArithmetic
  import opened Text
  import opened Means
  import opened Quantile
  import opened Ratios
  import opened RatioOrder

  // ---- which samples are used -------------------------------------------

  /** A ratio is left out with one reason, and used exactly when it is a positive number. */
  lemma ReasonMeans(s: WeightedSample)
    ensures ExclusionReason(s).None? <==> exists v :: v > 0.0 && s.ratio == Fin(v)
    ensures forall v :: ExclusionReason(s) == Some(RatioNotPositive(v)) <==> v <= 0.0 && s.ratio == Fin(v)
    ensures ExclusionReason(s) == Some(RatioIsInfinite) <==> s.ratio in {Infinite(true), Infinite(false)}
    ensures ExclusionReason(s) == Some(RatioIsNaN) <==> s.ratio == NaN
    ensures ExclusionReason(s) == Some(RatioNotCoercible) <==> s.ratio == NotCoercible
    ensures ExclusionReason(s) == Some(RatioIsNone) <==> s.ratio == Missing
  {
    if s.ratio.Fin? {
      assert s.ratio == Fin(s.ratio.v);
    }
  }

  /** The counts and the lists of the summary: each sample with a positive ratio is among those used, each
      other one is excluded with its reason, and together they are all samples. */
  lemma SummaryCounts(samples: seq<WeightedSample>, g: real, s: WeightedSample)
    ensures
      var r := SummaryOf(samples, g);
      && r.nTotal == |samples| == |r.samples| + |r.excluded| && r.nUsed == |r.samples|
      && (s in r.samples <==> s in samples && exists v :: v > 0.0 && s.ratio == Fin(v))
      && ((exists x :: x in r.excluded && x.sample == s) <==> s in samples && s !in r.samples)
      && (r.reducers.None? <==> r.nUsed == 0)
  {
    hide Used, Unused, ReducersOf, ExclusionReason;
    AuditCounts(samples);
    UsedMembers(samples, s);
    ReasonMeans(s);
    ExclusionIsFilter(s);
    forall x: Excluded | x.sample == s
      ensures x in Unused(samples) <==> s in samples && Some(x.reason) == ExclusionReason(s)
    {
      UnusedMembers(samples, x);
    }
    if ExclusionReason(s).Some? {
      assert Excluded(s, ExclusionReason(s).value).sample == s;
    }
  }

  ghost predicate HasPositive(samples: seq<WeightedSample>) {
    exists s, v :: s in samples && v > 0.0 && s.ratio == Fin(v)
  }

  lemma UsedMeans(samples: seq<WeightedSample>)
    ensures Used(samples) != [] <==> HasPositive(samples)
  {
    if s, v :| s in samples && v > 0.0 && s.ratio == Fin(v) {
      UsedMembers(samples, s);
    }
    if Used(samples) != [] {
      var s := Used(samples)[0];
      UsedMembers(samples, s);
      assert s.ratio == Fin(s.ratio.v);
    }
  }

  // ---- the means as points of balance -----------------------------------

  /** How far the positive ratios lie above `m`, added up. */
  function Lean(samples: seq<WeightedSample>, m: real): real {
    if samples == [] then 0.0
    else
      var s := samples[|samples| - 1];
      Lean(samples[..|samples| - 1], m) +
      (match s.ratio case Fin(v) => if v > 0.0 then v - m else 0.0 case _ => 0.0)
  }

  /** The same with every sample counted by its weight, if that is positive too. */
  function Pull(samples: seq<WeightedSample>, m: real): real {
    if samples == [] then 0.0
    else
      var s := samples[|samples| - 1];
      Pull(samples[..|samples| - 1], m) +
      (match (s.ratio, s.weight)
       case (Fin(v), Fin(w)) => if v > 0.0 && w > 0.0 then w * (v - m) else 0.0
       case _ => 0.0)
  }

  lemma SnocSums(xs: seq<WeightedSample>, s: WeightedSample)
    ensures Sum(RatiosOf(xs + [s])) == Sum(RatiosOf(xs)) + Value(s.ratio)
    ensures Sum(WeightsOf(xs + [s])) == Sum(WeightsOf(xs)) + Value(s.weight)
    ensures Dot(WeightsOf(xs + [s]), RatiosOf(xs + [s]))
         == Dot(WeightsOf(xs), RatiosOf(xs)) + Value(s.weight) * Value(s.ratio)
  {
    hide Dot, Sum, Product;
    var after := xs + [s];
    PrefixSums(WeightsOf(after), RatiosOf(after), WeightsOf(xs), RatiosOf(xs), |xs|);
    DotSucc(WeightsOf(after), RatiosOf(after), |xs|);
  }

  lemma NoSums()
    ensures Sum(RatiosOf([])) == Sum(WeightsOf([])) == Dot(WeightsOf([]), RatiosOf([])) == 0.0
  {
  }

  lemma Leaned(v: real, m: real, l: real, t: real, n: real)
    requires l == t - n * m
    ensures l + (v - m) == (t + v) - (n + 1.0) * m
  {
  }

  lemma LeanStep(init: seq<WeightedSample>, s: WeightedSample, m: real)
    ensures Lean(init + [s], m) == Lean(init, m) + (if IsPositiveFinite(s.ratio) then s.ratio.v - m else 0.0)
  {
    assert (init + [s])[..|init|] == init;
  }

  lemma {:induction false} LeanIs(samples: seq<WeightedSample>, m: real)
    ensures Lean(samples, m) == Sum(RatiosOf(Used(samples))) - |Used(samples)| as real * m
  {
    hide Sum, Used, Unused, RatiosOf, Lean;
    if samples == [] {
      NoSums();
      NothingLeans(m);
    } else {
      var init, s := samples[..|samples| - 1], samples[|samples| - 1];
      assert samples == init + [s];
      LeanIs(init, m);
      LeanStep(init, s, m);
      AuditAdds(init, s);
      ExclusionIsFilter(s);
      if IsPositiveFinite(s.ratio) {
        SnocSums(Used(init), s);
        Leaned(s.ratio.v, m, Lean(init, m), Sum(RatiosOf(Used(init))), |Used(init)| as real);
      }
    }
  }

  lemma NothingLeans(m: real)
    ensures Lean([], m) == 0.0 && Used([]) == []
  {
  }

  lemma WeighableStep(init: seq<WeightedSample>, s: WeightedSample)
    ensures Weighable(init + [s]) == if Weighs(s) then Weighable(init) + [s] else Weighable(init)
  {
    assert (init + [s])[..|init|] == init;
  }

  lemma Weighed(w: real, v: real, m: real, p: real, d: real, n: real)
    requires p == d - n * m
    ensures p + w * (v - m) == (d + w * v) - (n + w) * m
  {
  }

  lemma {:induction false} PullIs(samples: seq<WeightedSample>, m: real)
    ensures
      var used := Weighable(samples);
      Pull(samples, m) == Dot(WeightsOf(used), RatiosOf(used)) - Sum(WeightsOf(used)) * m
  {
    hide Sum, Dot, Weighable, RatiosOf, WeightsOf;
    if samples == [] {
      NoSums();
      assert Weighable([]) == [] by { NothingWeighable(); }
    } else {
      var init, s := samples[..|samples| - 1], samples[|samples| - 1];
      assert samples == init + [s];
      PullIs(init, m);
      WeighableStep(init, s);
      if Weighs(s) {
        var used := Weighable(init);
        SnocSums(used, s);
        Weighed(s.weight.v, s.ratio.v, m, Pull(init, m), Dot(WeightsOf(used), RatiosOf(used)), Sum(WeightsOf(used)));
      }
    }
  }

  lemma NothingWeighable()
    ensures Weighable([]) == []
  {
  }

  lemma BalancePoint(total: real, n: real, m: real)
    requires n > 0.0
    ensures total - n * m == 0.0 <==> m == total / n
  {
    assert total / n * n == total;
    if total - n * m == 0.0 {
      assert m * n == total;
      CancelLeq(m, total / n, n);
      CancelLeq(total / n, m, n);
    }
  }

  /** The arithmetic mean is the point about which the positive ratios balance. */
  lemma ArithmeticMeanBalances(samples: seq<WeightedSample>, m: real)
    ensures ArithmeticMean(AllRatios(samples)) == Some(m) <==> HasPositive(samples) && Lean(samples, m) == 0.0
  {
    hide Sum, Used, Unused, RatiosOf, Usable, AllRatios, Lean;
    UsedIsUsable(samples);
    UsedMeans(samples);
    LeanIs(samples, m);
    var used := Used(samples);
    if used != [] {
      BalancePoint(Sum(RatiosOf(used)), |used| as real, m);
    }
  }

  /** The weighted mean is the point about which they balance under their weights. */
  lemma WeightedMeanBalances(samples: seq<WeightedSample>, m: real)
    ensures WorkloadWeightedMeanOf(samples) == Some(m) <==>
            && (exists s, v, w :: s in samples && v > 0.0 && w > 0.0 && s.ratio == Fin(v) && s.weight == Fin(w))
            && Pull(samples, m) == 0.0
  {
    hide Sum, Dot, Weighable, RatiosOf, WeightsOf, Pull;
    PullIs(samples, m);
    var used := Weighable(samples);
    SomeWeighs(samples);
    if used != [] {
      SumPositive(WeightsOf(used), |used|);
      BalancePoint(Dot(WeightsOf(used), RatiosOf(used)), Sum(WeightsOf(used)), m);
    }
  }

  lemma {:induction false} SomeWeighs(samples: seq<WeightedSample>)
    ensures Weighable(samples) != [] <==>
            exists s, v, w :: s in samples && v > 0.0 && w > 0.0 && s.ratio == Fin(v) && s.weight == Fin(w)
  {
    if samples == [] {
    } else {
      var init, s := samples[..|samples| - 1], samples[|samples| - 1];
      assert samples == init + [s];
      SomeWeighs(init);
      WeighableStep(init, s);
      if Weighs(s) {
        assert s in samples && s.ratio == Fin(s.ratio.v) && s.weight == Fin(s.weight.v);
      }
    }
  }

  // ---- the quantiles of the summary -------------------------------------

  lemma SummaryParts(samples: seq<WeightedSample>, g: real, ys: seq<real>)
    requires Used(samples) != [] && ys == SortedRatios(RatiosOf(Used(samples)))
    ensures SummaryOf(samples, g).reducers.Some? && ys != []
    ensures
      var r := SummaryOf(samples, g).reducers.value;
      && r.min == ys[0] && r.max == ys[|ys| - 1] && r.median == QuantileOf(ys, 0.5).value
      && r.p25 == QuantileOf(ys, 0.25).value && r.p75 == QuantileOf(ys, 0.75).value
  {
    hide Used, Unused, QuantileOf, SortedRatios, RatiosOf, Mean, WorkloadWeightedMeanOf;
  }

  lemma SortedIs(xs: seq<real>, ys: seq<real>)
    requires Ascending(ys) && multiset(ys) == multiset(xs)
    ensures ys == SortedRatios(xs)
  {
    hide SortedRatios;
    AscendingUnique(ys, SortedRatios(xs));
  }

  /** Whatever ascending list the used ratios make, the summary's range is its ends, its median the
      middle, and its quartiles the blends a quarter and three quarters of the way along it. */
  lemma SummaryQuantiles(samples: seq<WeightedSample>, g: real, ys: seq<real>)
    requires HasPositive(samples) && Ascending(ys) && multiset(ys) == multiset(RatiosOf(Used(samples)))
    ensures SummaryOf(samples, g).reducers.Some? && ys != []
    ensures
      var r, n := SummaryOf(samples, g).reducers.value, |ys|;
      && r.min == ys[0] && r.max == ys[n - 1]
      && 2.0 * r.median == ys[(n - 1) / 2] + ys[n / 2]
      && r.p25 == Blended(ys, 0.25 * (n - 1) as real, n) && r.p75 == Blended(ys, 0.75 * (n - 1) as real, n)
  {
    hide Used, Unused, QuantileOf, Blended, SortedRatios, RatiosOf, SummaryOf, Ascending, HasPositive;
    UsedMeans(samples);
    SortedIs(RatiosOf(Used(samples)), ys);
    SummaryParts(samples, g, ys);
    MedianIsMiddle(ys);
    QuantileIsBlended(ys, 0.25, 0.25 * (|ys| - 1) as real);
    QuantileIsBlended(ys, 0.75, 0.75 * (|ys| - 1) as real);
  }
}

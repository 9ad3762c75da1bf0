/** The ratio summary: exclusion audit, the three means, quantiles and range (harness/aggregate.py). */
module Ratios {
  import opened Ordering
  import opened Text
  import opened Means
  import opened Quantile

  /** A Python float or what stands in its place; `Fin` is a finite float, as an exact real. */
  datatype Number = Missing | NotCoercible | NaN | Infinite(negative: bool) | Fin(v: real)

  datatype WeightedSample = WeightedSample(name: string, ratio: Number, weight: Number)

  datatype Reason = RatioIsNone | RatioNotCoercible | RatioIsNaN | RatioIsInfinite | RatioNotPositive(v: real)

  datatype Excluded = Excluded(sample: WeightedSample, reason: Reason)

  predicate IsPositiveFinite(x: Number) {
    x.Fin? && x.v > 0.0
  }

  function ExclusionReason(s: WeightedSample): Option<Reason> {
    match s.ratio
    case Missing => Some(RatioIsNone)
    case NotCoercible => Some(RatioNotCoercible)
    case NaN => Some(RatioIsNaN)
    case Infinite(_) => Some(RatioIsInfinite)
    case Fin(v) => if v <= 0.0 then Some(RatioNotPositive(v)) else None
  }

  // ---- standalone reducers ----------------------------------------------

  /** The positive, finite ratios among the inputs, in order. */
  function Usable(ratios: seq<Number>): (xs: seq<real>)
    ensures Positive(xs)
  {
    if ratios == [] then []
    else (if IsPositiveFinite(ratios[0]) then [ratios[0].v] else []) + Usable(ratios[1..])
  }

  function ArithmeticMean(ratios: seq<Number>): Option<real> {
    var xs := Usable(ratios);
    if xs == [] then None else Some(Mean(xs))
  }

  function Value(x: Number): real {
    if x.Fin? then x.v else 0.0
  }

  function RatiosOf(samples: seq<WeightedSample>): (rs: seq<real>)
    ensures |rs| == |samples|
  {
    seq(|samples|, i requires 0 <= i < |samples| => Value(samples[i].ratio))
  }

  function WeightsOf(samples: seq<WeightedSample>): (ws: seq<real>)
    ensures |ws| == |samples|
  {
    seq(|samples|, i requires 0 <= i < |samples| => Value(samples[i].weight))
  }

  predicate Weighs(s: WeightedSample) {
    IsPositiveFinite(s.ratio) && IsPositiveFinite(s.weight)
  }

  /** Samples with a usable ratio and a usable weight, in order. */
  function Weighable(samples: seq<WeightedSample>): (ws: seq<WeightedSample>)
    ensures forall i :: 0 <= i < |ws| ==> Weighs(ws[i])
    ensures Positive(RatiosOf(ws)) && Positive(WeightsOf(ws))
  {
    if samples == [] then []
    else
      var s := samples[|samples| - 1];
      Weighable(samples[..|samples| - 1]) + if Weighs(s) then [s] else []
  }

  function WorkloadWeightedMeanOf(samples: seq<WeightedSample>): Option<real> {
    var used := Weighable(samples);
    if used == [] then None
    else
      SumPositive(WeightsOf(used), |used|);
      Some(WeightedMean(WeightsOf(used), RatiosOf(used)))
  }

  method WorkloadWeightedMean(samples: seq<WeightedSample>) returns (r: Option<real>)
    ensures r == WorkloadWeightedMeanOf(samples)
  {
    var num, denom := 0.0, 0.0;
    for i := 0 to |samples|
      invariant var used := Weighable(samples[..i]);
                num == Dot(WeightsOf(used), RatiosOf(used)) && denom == Sum(WeightsOf(used))
    {
      var s := samples[i];
      WeighStep(samples, i);
      if !IsPositiveFinite(s.ratio) {
        continue;
      }
      if !IsPositiveFinite(s.weight) {
        continue;
      }
      num := num + s.weight.v * s.ratio.v;
      denom := denom + s.weight.v;
    }
    assert samples[..|samples|] == samples;
    var used := Weighable(samples);
    if used != [] {
      SumPositive(WeightsOf(used), |used|);
    }
    if denom <= 0.0 {
      return None;
    }
    r := Some(num / denom);
  }

  lemma WeighStep(samples: seq<WeightedSample>, i: nat)
    requires i < |samples|
    ensures var s, before, after := samples[i], Weighable(samples[..i]), Weighable(samples[..i + 1]);
            && Dot(WeightsOf(after), RatiosOf(after))
               == Dot(WeightsOf(before), RatiosOf(before)) + (if Weighs(s) then s.weight.v * s.ratio.v else 0.0)
            && Sum(WeightsOf(after)) == Sum(WeightsOf(before)) + (if Weighs(s) then s.weight.v else 0.0)
  {
    var s, before := samples[i], Weighable(samples[..i]);
    assert samples[..i + 1][..i] == samples[..i];
    if Weighs(s) {
      AppendSums(before, s);
    } else {
      assert before + [] == before;
    }
  }

  lemma AppendSums(before: seq<WeightedSample>, s: WeightedSample)
    ensures var after := before + [s];
            && Dot(WeightsOf(after), RatiosOf(after))
               == Dot(WeightsOf(before), RatiosOf(before)) + Value(s.weight) * Value(s.ratio)
            && Sum(WeightsOf(after)) == Sum(WeightsOf(before)) + Value(s.weight)
  {
    var after := before + [s];
    PrefixSums(WeightsOf(after), RatiosOf(after), WeightsOf(before), RatiosOf(before), |before|);
    DotSucc(WeightsOf(after), RatiosOf(after), |before|);
  }

  /** Sums over a prefix do not look past it. */
  lemma {:induction false} PrefixSums(ws: seq<real>, rs: seq<real>, ws': seq<real>, rs': seq<real>, n: nat)
    requires n <= |ws| == |rs| && n <= |ws'| == |rs'|
    requires forall i :: 0 <= i < n ==> ws[i] == ws'[i] && rs[i] == rs'[i]
    ensures Dot(ws, rs, n) == Dot(ws', rs', n) && Sum(ws, n) == Sum(ws', n) && Sum(rs, n) == Sum(rs', n)
    ensures Product(rs, n) == Product(rs', n)
  {
    if n == 0 {
    } else {
      PrefixSums(ws, rs, ws', rs', n - 1);
    }
  }

  // ---- the exclusion audit ----------------------------------------------

  function Used(samples: seq<WeightedSample>): (used: seq<WeightedSample>)
    ensures forall i :: 0 <= i < |used| ==> ExclusionReason(used[i]).None?
    ensures Positive(RatiosOf(used))
  {
    if samples == [] then []
    else
      var s := samples[|samples| - 1];
      Used(samples[..|samples| - 1]) + if ExclusionReason(s).None? then [s] else []
  }

  function Unused(samples: seq<WeightedSample>): seq<Excluded> {
    if samples == [] then []
    else
      var s := samples[|samples| - 1];
      var reason := ExclusionReason(s);
      Unused(samples[..|samples| - 1]) + if reason.Some? then [Excluded(s, reason.value)] else []
  }

  function ExcludedSamples(xs: seq<Excluded>): seq<WeightedSample> {
    seq(|xs|, i requires 0 <= i < |xs| => xs[i].sample)
  }

  /** The audit's exclusion test and the reducers' filter are the same test. */
  lemma ExclusionIsFilter(s: WeightedSample)
    ensures ExclusionReason(s).None? <==> IsPositiveFinite(s.ratio)
  {
  }

  /** What the last sample adds to the lists of the audit. */
  lemma AuditAdds(init: seq<WeightedSample>, s: WeightedSample)
    ensures var samples, reason := init + [s], ExclusionReason(s);
            && Used(samples) == (if reason.None? then Used(init) + [s] else Used(init))
            && Unused(samples) == (if reason.None? then Unused(init) else Unused(init) + [Excluded(s, reason.value)])
  {
    assert (init + [s])[..|init|] == init;
    if ExclusionReason(s).None? {
      assert Unused(init + [s]) == Unused(init);
    } else {
      assert Used(init + [s]) == Used(init);
    }
  }

  lemma InSnoc<T>(xs: seq<T>, last: T, x: T)
    ensures x in xs + [last] <==> x in xs || x == last
  {
  }

  lemma {:induction false} UsedMembers(samples: seq<WeightedSample>, s: WeightedSample)
    ensures s in Used(samples) <==> s in samples && IsPositiveFinite(s.ratio)
  {
    if samples == [] {
    } else {
      hide Used, Unused, ExclusionReason, IsPositiveFinite;
      var init, last := samples[..|samples| - 1], samples[|samples| - 1];
      assert samples == init + [last];
      UsedMembers(init, s);
      AuditAdds(init, last);
      ExclusionIsFilter(last);
      InSnoc(init, last, s);
      InSnoc(Used(init), last, s);
    }
  }

  lemma {:induction false} UnusedMembers(samples: seq<WeightedSample>, x: Excluded)
    ensures x in Unused(samples) <==> x.sample in samples && Some(x.reason) == ExclusionReason(x.sample)
  {
    if samples == [] {
    } else {
      hide Used, Unused, ExclusionReason;
      var init, last := samples[..|samples| - 1], samples[|samples| - 1];
      assert samples == init + [last];
      UnusedMembers(init, x);
      AuditAdds(init, last);
      InSnoc(init, last, x.sample);
      if ExclusionReason(last).Some? {
        InSnoc(Unused(init), Excluded(last, ExclusionReason(last).value), x);
      }
    }
  }

  /** The ratio alone decides whether a sample is used, and why not if it is not. */
  lemma AuditMembers(samples: seq<WeightedSample>, s: WeightedSample, x: Excluded)
    ensures s in Used(samples) <==> s in samples && IsPositiveFinite(s.ratio)
    ensures x in Unused(samples) <==> x.sample in samples && Some(x.reason) == ExclusionReason(x.sample)
  {
    UsedMembers(samples, s);
    UnusedMembers(samples, x);
  }

  predicate Rising(f: seq<nat>) {
    forall i, j :: 0 <= i < j < |f| ==> f[i] < f[j]
  }

  /** `part` lists the samples at the positions `f`. */
  predicate Picks(part: seq<WeightedSample>, samples: seq<WeightedSample>, f: seq<nat>) {
    |part| == |f| && forall i :: 0 <= i < |f| ==> f[i] < |samples| && part[i] == samples[f[i]]
  }

  /** `f` and `g` split the positions of the input, each in rising order. */
  predicate SplitsInOrder(used: seq<WeightedSample>, excluded: seq<WeightedSample>, samples: seq<WeightedSample>,
                          f: seq<nat>, g: seq<nat>)
  {
    && Rising(f) && Rising(g) && Picks(used, samples, f) && Picks(excluded, samples, g)
    && forall i: nat :: i < |samples| ==> (i in f <==> i !in g)
  }

  lemma OneMoreUsed(used: seq<WeightedSample>, excluded: seq<WeightedSample>, samples: seq<WeightedSample>,
                    f: seq<nat>, g: seq<nat>, s: WeightedSample)
    requires SplitsInOrder(used, excluded, samples, f, g)
    ensures SplitsInOrder(used + [s], excluded, samples + [s], f + [|samples|], g)
  {
    assert |samples| !in g;
    forall i: nat | i < |samples| + 1 ensures i in f + [|samples|] <==> i !in g {
      assert i in f + [|samples|] <==> i in f || i == |samples|;
    }
  }

  lemma OneMoreExcluded(used: seq<WeightedSample>, excluded: seq<WeightedSample>, samples: seq<WeightedSample>,
                        f: seq<nat>, g: seq<nat>, s: WeightedSample)
    requires SplitsInOrder(used, excluded, samples, f, g)
    ensures SplitsInOrder(used, excluded + [s], samples + [s], f, g + [|samples|])
  {
    assert |samples| !in f;
    forall i: nat | i < |samples| + 1 ensures i in f <==> i !in g + [|samples|] {
      assert i in g + [|samples|] <==> i in g || i == |samples|;
    }
  }

  lemma AuditStep(init: seq<WeightedSample>, s: WeightedSample)
    ensures var samples, here := init + [s], ExclusionReason(s).None?;
            && Used(samples) == (if here then Used(init) + [s] else Used(init))
            && ExcludedSamples(Unused(samples))
            == (if here then ExcludedSamples(Unused(init)) else ExcludedSamples(Unused(init)) + [s])
            && |Unused(samples)| == |Unused(init)| + (if here then 0 else 1)
  {
    hide Used, Unused;
    AuditAdds(init, s);
  }

  lemma NothingAudited()
    ensures SplitsInOrder(Used([]), ExcludedSamples(Unused([])), [], [], [])
  {
  }

  lemma {:induction false} AuditPositions(samples: seq<WeightedSample>) returns (f: seq<nat>, g: seq<nat>)
    ensures SplitsInOrder(Used(samples), ExcludedSamples(Unused(samples)), samples, f, g)
  {
    hide Used, Unused, ExcludedSamples, SplitsInOrder;
    if samples == [] {
      NothingAudited();
      f, g := [], [];
    } else {
      var init, s := samples[..|samples| - 1], samples[|samples| - 1];
      assert samples == init + [s];
      f, g := AuditPositions(init);
      AuditStep(init, s);
      OneMoreUsed(Used(init), ExcludedSamples(Unused(init)), init, f, g, s);
      OneMoreExcluded(Used(init), ExcludedSamples(Unused(init)), init, f, g, s);
      if ExclusionReason(s).None? {
        f := f + [|init|];
      } else {
        g := g + [|init|];
      }
    }
  }

  lemma {:induction false} AuditCounts(samples: seq<WeightedSample>)
    ensures multiset(Used(samples)) + multiset(ExcludedSamples(Unused(samples))) == multiset(samples)
    ensures |Used(samples)| + |Unused(samples)| == |samples|
  {
    if samples == [] {
    } else {
      hide Used, Unused, ExcludedSamples;
      var init, s := samples[..|samples| - 1], samples[|samples| - 1];
      assert samples == init + [s];
      AuditCounts(init);
      AuditStep(init, s);
    }
  }

  /** Used and excluded samples partition the input, and each list keeps the input's order. */
  lemma AuditPartitions(samples: seq<WeightedSample>)
    ensures multiset(Used(samples)) + multiset(ExcludedSamples(Unused(samples))) == multiset(samples)
    ensures |Used(samples)| + |Unused(samples)| == |samples|
    ensures exists f, g :: SplitsInOrder(Used(samples), ExcludedSamples(Unused(samples)), samples, f, g)
  {
    hide Used, Unused, ExcludedSamples, SplitsInOrder;
    AuditCounts(samples);
    var f, g := AuditPositions(samples);
  }

  lemma {:induction false} UsableAppend(xs: seq<Number>, x: Number)
    ensures Usable(xs + [x]) == Usable(xs) + if IsPositiveFinite(x) then [x.v] else []
  {
    if xs == [] {
      assert Usable([]) == [] && ([] + [x])[1..] == [];
    } else {
      var rest, last := Usable(xs[1..]), if IsPositiveFinite(x) then [x.v] else [];
      UsableAppend(xs[1..], x);
      assert (xs + [x])[1..] == xs[1..] + [x] && (xs + [x])[0] == xs[0];
      if IsPositiveFinite(xs[0]) {
        assert [xs[0].v] + (rest + last) == [xs[0].v] + rest + last;
      } else {
        assert [] + (rest + last) == [] + rest + last;
      }
    }
  }

  function AllRatios(samples: seq<WeightedSample>): seq<Number> {
    seq(|samples|, i requires 0 <= i < |samples| => samples[i].ratio)
  }

  /** The ratios of the used samples are what the standalone reducers keep of the unfiltered list. */
  lemma {:induction false} UsedIsUsable(samples: seq<WeightedSample>)
    ensures RatiosOf(Used(samples)) == Usable(AllRatios(samples))
  {
    if samples == [] {
    } else {
      var n := |samples| - 1;
      UsedIsUsable(samples[..n]);
      assert AllRatios(samples) == AllRatios(samples[..n]) + [samples[n].ratio];
      UsableAppend(AllRatios(samples[..n]), samples[n].ratio);
    }
  }

  /** Filtering by ratio first does not change what the weighted mean weighs. */
  lemma {:induction false} WeighableOfUsed(samples: seq<WeightedSample>)
    ensures Weighable(Used(samples)) == Weighable(samples)
  {
    if samples == [] {
    } else {
      var n := |samples| - 1;
      WeighableOfUsed(samples[..n]);
      var before, s := Used(samples[..n]), samples[n];
      if IsPositiveFinite(s.ratio) {
        assert Used(samples) == before + [s];
        assert (before + [s])[..|before|] == before;
      } else {
        assert Used(samples) == before;
      }
    }
  }

  lemma {:induction false} AllWeighable(samples: seq<WeightedSample>)
    requires forall s :: s in samples ==> Weighs(s)
    ensures Weighable(samples) == samples
  {
    if samples == [] {
    } else {
      var init, last := samples[..|samples| - 1], samples[|samples| - 1];
      assert samples == init + [last] && last in samples;
      AllWeighable(init);
    }
  }

  /** The samples that the weighted mean weighs are all the used ones, if each of those has a weight. */
  lemma WeighsAllUsed(samples: seq<WeightedSample>)
    requires forall s :: s in Used(samples) ==> IsPositiveFinite(s.weight)
    ensures Weighable(samples) == Used(samples)
  {
    forall s | s in Used(samples) ensures Weighs(s) {
      AuditMembers(samples, s, Excluded(s, RatioIsNone));
    }
    AllWeighable(Used(samples));
    WeighableOfUsed(samples);
  }

  /** With one weight for all, as by default, the weighted mean is the arithmetic mean of the list. */
  lemma EqualWeightsMean(samples: seq<WeightedSample>, w: real)
    requires w > 0.0 && forall s :: s in Used(samples) ==> s.weight == Fin(w)
    ensures WorkloadWeightedMeanOf(samples) == ArithmeticMean(AllRatios(samples))
  {
    hide Sum, Dot;
    var used := Used(samples);
    WeighsAllUsed(samples);
    UsedIsUsable(samples);
    if used != [] {
      forall i | 0 <= i < |used| ensures WeightsOf(used)[i] == w {
        assert used[i] in used;
      }
      EqualWeights(w, WeightsOf(used), RatiosOf(used));
    }
  }

  /** When every used sample has a weight and larger weights come with larger ratios, the weighted
      mean is at least the arithmetic mean of the list. */
  lemma OrderedWeightsMean(samples: seq<WeightedSample>)
    requires Used(samples) != [] && forall s :: s in Used(samples) ==> IsPositiveFinite(s.weight)
    requires SimilarlyOrdered(WeightsOf(Used(samples)), RatiosOf(Used(samples)))
    ensures WorkloadWeightedMeanOf(samples).Some? && ArithmeticMean(AllRatios(samples)).Some?
    ensures WorkloadWeightedMeanOf(samples).value >= ArithmeticMean(AllRatios(samples)).value
  {
    hide Sum, Dot;
    WeighsAllUsed(samples);
    UsedIsUsable(samples);
    WeightedAboveArithmetic(WeightsOf(Used(samples)), RatiosOf(Used(samples)));
  }

  // ---- the summary ------------------------------------------------------

  datatype Reducers = Reducers(
    arithmeticMean: real, geometricMean: real, workloadWeightedMean: Option<real>,
    median: real, p25: real, p75: real, min: real, max: real)

  datatype Summary = Summary(
    nTotal: nat, nUsed: nat, excluded: seq<Excluded>, reducers: Option<Reducers>, samples: seq<WeightedSample>)

  predicate RealLeq(a: real, b: real) {
    a <= b
  }

  function SortedRatios(xs: seq<real>): (ys: seq<real>)
    ensures |ys| == |xs| && multiset(ys) == multiset(xs) && Ascending(ys)
  {
    StableSortSorted(RealLeq, xs);
    var ys := StableSort(RealLeq, xs);
    assert |ys| == |multiset(ys)|;
    assert forall i, j :: 0 <= i < j < |ys| ==> RealLeq(ys[i], ys[j]);
    ys
  }

  function ReducersOf(used: seq<WeightedSample>, g: real): Reducers
    requires used != []
  {
    var xs := RatiosOf(used);
    var ys := SortedRatios(xs);
    Reducers(Mean(xs), g, WorkloadWeightedMeanOf(used),
             QuantileOf(ys, 0.5).value, QuantileOf(ys, 0.25).value, QuantileOf(ys, 0.75).value,
             ys[0], ys[|ys| - 1])
  }

  function SummaryOf(samples: seq<WeightedSample>, g: real): Summary {
    var used := Used(samples);
    Summary(|samples|, |used|, Unused(samples), if used == [] then None else Some(ReducersOf(used, g)), used)
  }

  /** `g` stands for `exp(mean(log ratios))`, whose value the caller supplies. */
  method SummarizeRatios(samples: seq<WeightedSample>, g: real) returns (r: Summary)
    requires Used(samples) != [] ==> IsGeometricMean(g, RatiosOf(Used(samples)))
    ensures r == SummaryOf(samples, g)
  {
    hide SortedRatios, QuantileOf, Mean, WorkloadWeightedMeanOf;
    var used: seq<WeightedSample>, excluded: seq<Excluded> := [], [];
    for i := 0 to |samples|
      invariant used == Used(samples[..i]) && excluded == Unused(samples[..i])
    {
      assert samples[..i + 1][..i] == samples[..i];
      var reason := ExclusionReason(samples[i]);
      if reason.None? {
        used := used + [samples[i]];
      } else {
        excluded := excluded + [Excluded(samples[i], reason.value)];
      }
    }
    assert samples[..|samples|] == samples;
    if used == [] {
      return Summary(|samples|, 0, excluded, None, []);
    }
    var ratios := RatiosOf(used);
    var sorted := SortedRatios(ratios);
    var weighted := WorkloadWeightedMean(used);
    var reducers := Reducers(
      Mean(ratios), g, weighted,
      QuantileOf(sorted, 0.5).value, QuantileOf(sorted, 0.25).value, QuantileOf(sorted, 0.75).value,
      sorted[0], sorted[|sorted| - 1]);
    r := Summary(|samples|, |used|, excluded, Some(reducers), used);
  }

  /** Each mean of the summary is the standalone reducer on the unfiltered list. */
  lemma SummaryIsStandalone(samples: seq<WeightedSample>, g: real)
    ensures var r := SummaryOf(samples, g);
            && (r.reducers.None? <==> ArithmeticMean(AllRatios(samples)).None?)
            && (r.reducers.Some? ==>
                  && Some(r.reducers.value.arithmeticMean) == ArithmeticMean(AllRatios(samples))
                  && r.reducers.value.workloadWeightedMean == WorkloadWeightedMeanOf(samples)
                  && (IsGeometricMean(g, RatiosOf(r.samples)) <==> IsGeometricMean(g, Usable(AllRatios(samples)))))
  {
    UsedIsUsable(samples);
    WeighableOfUsed(samples);
  }

  /** Every reducer lies in the published range, and the means and quantiles are ordered. */
  lemma SummaryOrdered(samples: seq<WeightedSample>, g: real)
    requires Used(samples) != [] && IsGeometricMean(g, RatiosOf(Used(samples)))
    ensures var r := ReducersOf(Used(samples), g);
            && 0.0 < r.min <= r.geometricMean <= r.arithmeticMean <= r.max
            && r.min <= r.p25 <= r.median <= r.p75 <= r.max
            && (r.workloadWeightedMean.Some? ==> r.min <= r.workloadWeightedMean.value <= r.max)
            && (r.geometricMean == r.arithmeticMean <==> AllEqual(RatiosOf(Used(samples))))
  {
    var used := Used(samples);
    var xs := RatiosOf(used);
    var ys := SortedRatios(xs);
    RangeOfSorted(xs, ys);
    QuantilesOrdered(ys);
    MeansOrdered(xs, g, ys[0], ys[|ys| - 1]);
    GeometricBelowArithmetic(xs, g);
    var weighed := Weighable(used);
    if weighed != [] {
      WeighableMember(used);
      assert Within(RatiosOf(weighed), ys[0], ys[|ys| - 1]) by {
        forall i | 0 <= i < |weighed| ensures ys[0] <= RatiosOf(weighed)[i] <= ys[|ys| - 1] {
          assert weighed[i] in used;
          var j :| 0 <= j < |used| && used[j] == weighed[i];
          assert xs[j] == RatiosOf(weighed)[i];
        }
      }
      WeightedMeanBounds(WeightsOf(weighed), RatiosOf(weighed), ys[0], ys[|ys| - 1]);
    }
  }

  lemma RangeOfSorted(xs: seq<real>, ys: seq<real>)
    requires xs != [] && Positive(xs) && Ascending(ys) && multiset(xs) == multiset(ys) && |xs| == |ys|
    ensures Within(xs, ys[0], ys[|ys| - 1]) && ys[0] > 0.0
  {
    forall i | 0 <= i < |xs| ensures ys[0] <= xs[i] <= ys[|ys| - 1] {
      assert xs[i] in multiset(ys);
      var j :| 0 <= j < |ys| && ys[j] == xs[i];
    }
    assert ys[0] in multiset(xs);
  }

  lemma {:induction false} WeighableMember(samples: seq<WeightedSample>)
    ensures forall s :: s in Weighable(samples) ==> s in samples
  {
    if samples == [] {
    } else {
      WeighableMember(samples[..|samples| - 1]);
    }
  }
}

/** The ratio summary does not depend on the order of the samples. */
module RatioOrder {
  import opened Means
  import opened Quantile
  import opened Ratios

  type Sample = WeightedSample

  // ---- folds over samples -----------------------------------------------

  ghost predicate CommutativeMonoid(op: (real, real) -> real, unit: real) {
    && (forall a, b :: op(a, b) == op(b, a))
    && (forall a, b, c :: op(op(a, b), c) == op(a, op(b, c)))
    && (forall a :: op(unit, a) == a)
  }

  /** What is accumulated over the samples. */
  datatype Term = RatioTerm | WeightTerm | WorkTerm

  function TermOf(t: Term, s: Sample): real {
    match t
    case RatioTerm => Value(s.ratio)
    case WeightTerm => Value(s.weight)
    case WorkTerm => Value(s.weight) * Value(s.ratio)
  }

  function Fold(op: (real, real) -> real, unit: real, t: Term, xs: seq<Sample>): real {
    if xs == [] then unit else op(TermOf(t, xs[0]), Fold(op, unit, t, xs[1..]))
  }

  lemma {:induction false} FoldConcat(op: (real, real) -> real, unit: real, t: Term, xs: seq<Sample>, ys: seq<Sample>)
    requires CommutativeMonoid(op, unit)
    ensures Fold(op, unit, t, xs + ys) == op(Fold(op, unit, t, xs), Fold(op, unit, t, ys))
  {
    hide TermOf;
    var b := Fold(op, unit, t, ys);
    if xs == [] {
      assert [] + ys == ys;
      assert op(unit, b) == b;
    } else {
      assert (xs + ys)[0] == xs[0] && (xs + ys)[1..] == xs[1..] + ys;
      FoldConcat(op, unit, t, xs[1..], ys);
      var x, a := TermOf(t, xs[0]), Fold(op, unit, t, xs[1..]);
      assert op(op(x, a), b) == op(x, op(a, b));
    }
  }

  lemma FoldAppend(op: (real, real) -> real, unit: real, t: Term, xs: seq<Sample>, x: Sample)
    requires CommutativeMonoid(op, unit)
    ensures Fold(op, unit, t, xs + [x]) == op(Fold(op, unit, t, xs), TermOf(t, x))
  {
    hide TermOf;
    FoldConcat(op, unit, t, xs, [x]);
    var v := TermOf(t, x);
    assert Fold(op, unit, t, [x]) == op(v, unit) == op(unit, v) == v;
  }

  /** One occurrence of `x` taken out of `ys`, leaving a permutation of `rest`. */
  lemma Remove(rest: seq<Sample>, x: Sample, ys: seq<Sample>) returns (before: seq<Sample>, after: seq<Sample>)
    requires multiset([x] + rest) == multiset(ys)
    ensures ys == before + [x] + after && multiset(rest) == multiset(before + after)
  {
    assert x in multiset([x] + rest);
    var i :| 0 <= i < |ys| && ys[i] == x;
    before, after := ys[..i], ys[i + 1..];
    assert ys == before + [x] + after;
    assert multiset(rest) == multiset([x] + rest) - multiset{x};
    assert multiset(before + after) == multiset(before + [x] + after) - multiset{x};
  }

  lemma {:induction false} FoldPermuted(op: (real, real) -> real, unit: real, t: Term, xs: seq<Sample>, ys: seq<Sample>)
    requires CommutativeMonoid(op, unit) && multiset(xs) == multiset(ys)
    ensures Fold(op, unit, t, xs) == Fold(op, unit, t, ys)
    decreases |xs|
  {
    hide TermOf, CommutativeMonoid;
    if xs == [] {
      assert |multiset(ys)| == |ys|;
    } else {
      var x := xs[0];
      assert xs == [x] + xs[1..];
      var before, after := Remove(xs[1..], x, ys);
      FoldPermuted(op, unit, t, xs[1..], before + after);
      FoldConcat(op, unit, t, before, after);
      FoldConcat(op, unit, t, before + [x], after);
      FoldAppend(op, unit, t, before, x);
      Rearrange(op, unit, Fold(op, unit, t, before), TermOf(t, x), Fold(op, unit, t, after));
    }
  }

  lemma Rearrange(op: (real, real) -> real, unit: real, a: real, x: real, b: real)
    requires CommutativeMonoid(op, unit)
    ensures op(op(a, x), b) == op(x, op(a, b))
  {
    assert op(a, x) == op(x, a);
    assert op(op(x, a), b) == op(x, op(a, b));
  }

  function Add(a: real, b: real): real { a + b }

  function Times(a: real, b: real): real { a * b }

  lemma Monoids()
    ensures CommutativeMonoid(Add, 0.0) && CommutativeMonoid(Times, 1.0)
  {
    forall a, b, c ensures Times(Times(a, b), c) == Times(a, Times(b, c)) {
      assert a * b * c == a * (b * c);
    }
  }

  lemma {:induction false} SumsAreFolds(xs: seq<Sample>, n: nat)
    requires n <= |xs|
    ensures Sum(RatiosOf(xs), n) == Fold(Add, 0.0, RatioTerm, xs[..n])
    ensures Sum(WeightsOf(xs), n) == Fold(Add, 0.0, WeightTerm, xs[..n])
  {
    hide Fold, CommutativeMonoid, Sum, Dot;
    if n == 0 {
      EmptyFolds(xs);
    } else {
      var m := n - 1;
      SumsAreFolds(xs, m);
      assert xs[..n] == xs[..m] + [xs[m]];
      Monoids();
      DotSucc(WeightsOf(xs), RatiosOf(xs), m);
      FoldAppend(Add, 0.0, RatioTerm, xs[..m], xs[m]);
      FoldAppend(Add, 0.0, WeightTerm, xs[..m], xs[m]);
    }
  }

  lemma {:induction false} ProductsAreFolds(xs: seq<Sample>, n: nat)
    requires n <= |xs|
    ensures Dot(WeightsOf(xs), RatiosOf(xs), n) == Fold(Add, 0.0, WorkTerm, xs[..n])
    ensures Product(RatiosOf(xs), n) == Fold(Times, 1.0, RatioTerm, xs[..n])
  {
    hide Fold, CommutativeMonoid, Sum, Dot, Product;
    if n == 0 {
      EmptyFolds(xs);
    } else {
      var m := n - 1;
      ProductsAreFolds(xs, m);
      assert xs[..n] == xs[..m] + [xs[m]];
      Monoids();
      SumSucc(RatiosOf(xs), m);
      DotSucc(WeightsOf(xs), RatiosOf(xs), m);
      FoldAppend(Add, 0.0, WorkTerm, xs[..m], xs[m]);
      FoldAppend(Times, 1.0, RatioTerm, xs[..m], xs[m]);
    }
  }

  lemma EmptyFolds(xs: seq<Sample>)
    ensures Sum(RatiosOf(xs), 0) == Fold(Add, 0.0, RatioTerm, xs[..0])
    ensures Sum(WeightsOf(xs), 0) == Fold(Add, 0.0, WeightTerm, xs[..0])
    ensures Dot(WeightsOf(xs), RatiosOf(xs), 0) == Fold(Add, 0.0, WorkTerm, xs[..0])
    ensures Product(RatiosOf(xs), 0) == Fold(Times, 1.0, RatioTerm, xs[..0])
  {
  }

  lemma SumsPermuted(xs: seq<Sample>, ys: seq<Sample>)
    requires multiset(xs) == multiset(ys)
    ensures |xs| == |ys|
    ensures Sum(RatiosOf(xs)) == Sum(RatiosOf(ys)) && Sum(WeightsOf(xs)) == Sum(WeightsOf(ys))
    ensures Dot(WeightsOf(xs), RatiosOf(xs)) == Dot(WeightsOf(ys), RatiosOf(ys))
    ensures Product(RatiosOf(xs)) == Product(RatiosOf(ys))
  {
    hide Fold, CommutativeMonoid, Sum, Dot, Product;
    Monoids();
    assert |multiset(xs)| == |xs| && |multiset(ys)| == |ys|;
    assert xs[..|xs|] == xs && ys[..|ys|] == ys;
    SumsAreFolds(xs, |xs|);
    SumsAreFolds(ys, |ys|);
    ProductsAreFolds(xs, |xs|);
    ProductsAreFolds(ys, |ys|);
    FoldPermuted(Add, 0.0, RatioTerm, xs, ys);
    FoldPermuted(Add, 0.0, WeightTerm, xs, ys);
    FoldPermuted(Add, 0.0, WorkTerm, xs, ys);
    FoldPermuted(Times, 1.0, RatioTerm, xs, ys);
  }

  // ---- filters and sorting ----------------------------------------------

  lemma CountAppend(xs: seq<Sample>, x: Sample, s: Sample)
    ensures multiset(xs + [x])[s] == multiset(xs)[s] + if x == s then 1 else 0
  {
  }

  lemma UsedStep(xs: seq<Sample>, x: Sample)
    ensures Used([]) == []
    ensures Used(xs + [x]) == if IsPositiveFinite(x.ratio) then Used(xs) + [x] else Used(xs)
  {
    assert (xs + [x])[..|xs|] == xs;
    ExclusionIsFilter(x);
    assert Used(xs) + [] == Used(xs);
  }

  lemma {:induction false} UsedCount(xs: seq<Sample>, s: Sample)
    ensures multiset(Used(xs))[s] == if IsPositiveFinite(s.ratio) then multiset(xs)[s] else 0
  {
    hide Used, Positive;
    if xs == [] {
      UsedStep([], s);
    } else {
      var n := |xs| - 1;
      UsedCount(xs[..n], s);
      UsedStep(xs[..n], xs[n]);
      assert xs == xs[..n] + [xs[n]];
      CountAppend(xs[..n], xs[n], s);
      CountAppend(Used(xs[..n]), xs[n], s);
    }
  }

  lemma {:induction false} WeighableCount(xs: seq<Sample>, s: Sample)
    ensures multiset(Weighable(xs))[s] == if Weighs(s) then multiset(xs)[s] else 0
  {
    if xs == [] {
    } else {
      var n := |xs| - 1;
      WeighableCount(xs[..n], s);
      assert xs == xs[..n] + [xs[n]];
      CountAppend(xs[..n], xs[n], s);
      CountAppend(Weighable(xs[..n]), xs[n], s);
      assert Weighable(xs[..n]) + [] == Weighable(xs[..n]);
    }
  }

  lemma FiltersPermuted(xs: seq<Sample>, ys: seq<Sample>)
    requires multiset(xs) == multiset(ys)
    ensures multiset(Used(xs)) == multiset(Used(ys)) && multiset(Weighable(xs)) == multiset(Weighable(ys))
  {
    forall s
      ensures multiset(Used(xs))[s] == multiset(Used(ys))[s]
      ensures multiset(Weighable(xs))[s] == multiset(Weighable(ys))[s]
    {
      UsedCount(xs, s);
      UsedCount(ys, s);
      WeighableCount(xs, s);
      WeighableCount(ys, s);
    }
  }

  lemma {:induction false} RatiosPermuted(xs: seq<Sample>, ys: seq<Sample>)
    requires multiset(xs) == multiset(ys)
    ensures multiset(RatiosOf(xs)) == multiset(RatiosOf(ys))
    decreases |xs|
  {
    if xs == [] {
      assert |multiset(ys)| == |ys|;
    } else {
      var x := xs[0];
      assert xs == [x] + xs[1..];
      var before, after := Remove(xs[1..], x, ys);
      RatiosPermuted(xs[1..], before + after);
      assert RatiosOf(xs) == [Value(x.ratio)] + RatiosOf(xs[1..]);
      assert RatiosOf(ys) == RatiosOf(before) + [Value(x.ratio)] + RatiosOf(after);
      assert RatiosOf(before + after) == RatiosOf(before) + RatiosOf(after);
    }
  }

  lemma AscendingHead(xs: seq<real>, ys: seq<real>)
    requires Ascending(xs) && Ascending(ys) && xs != [] && ys != [] && multiset(xs) == multiset(ys)
    ensures xs[0] == ys[0]
  {
    assert xs[0] in multiset(ys) && ys[0] in multiset(xs);
    var i :| 0 <= i < |ys| && ys[i] == xs[0];
    var j :| 0 <= j < |xs| && xs[j] == ys[0];
  }

  lemma TailMultiset(xs: seq<real>)
    requires xs != []
    ensures multiset(xs[1..]) == multiset(xs) - multiset{xs[0]}
  {
    assert xs == [xs[0]] + xs[1..];
  }

  lemma {:induction false} AscendingUnique(xs: seq<real>, ys: seq<real>)
    requires Ascending(xs) && Ascending(ys) && multiset(xs) == multiset(ys)
    ensures xs == ys
  {
    assert |multiset(xs)| == |xs| && |multiset(ys)| == |ys|;
    if xs == [] {
    } else {
      AscendingHead(xs, ys);
      TailMultiset(xs);
      TailMultiset(ys);
      AscendingUnique(xs[1..], ys[1..]);
      assert xs == [xs[0]] + xs[1..] && ys == [ys[0]] + ys[1..];
    }
  }

  /** Permuting the samples changes no reducer of the summary and no geometric mean. */
  lemma SummaryPermuted(xs: seq<Sample>, ys: seq<Sample>, g: real)
    requires multiset(xs) == multiset(ys)
    ensures SummaryOf(xs, g).reducers == SummaryOf(ys, g).reducers
    ensures SummaryOf(xs, g).nTotal == SummaryOf(ys, g).nTotal && SummaryOf(xs, g).nUsed == SummaryOf(ys, g).nUsed
    ensures IsGeometricMean(g, RatiosOf(Used(xs))) <==> IsGeometricMean(g, RatiosOf(Used(ys)))
  {
    assert |multiset(xs)| == |xs| && |multiset(ys)| == |ys|;
    FiltersPermuted(xs, ys);
    SumsPermuted(Used(xs), Used(ys));
    WeighableOfUsed(xs);
    WeighableOfUsed(ys);
    SumsPermuted(Weighable(xs), Weighable(ys));
    RatiosPermuted(Used(xs), Used(ys));
    AscendingUnique(SortedRatios(RatiosOf(Used(xs))), SortedRatios(RatiosOf(Used(ys))));
  }
}

/** The corpus means of the agreement rates (harness/pipeline.py, `aggregate_sim_only`): over all
    topologies, and over those with something to compare. */
module CorpusMeans {
  import opened RealArithmetic
  import opened FibIndex
  import opened Diff
  import opened Metrics
  import opened Means
  import opened Ratios
  import opened Reconcile

  datatype Which = NextHopRate | ProtocolRate | BgpAttrRate

  function RateOf(w: Which, p: PairAgreement): real {
    match w
    case NextHopRate => p.nextHop
    case ProtocolRate => p.protocol
    case BgpAttrRate => p.bgpAttr
  }

  /** The agreement published for some pair of indexes. */
  ghost predicate IsPublished(p: PairAgreement) {
    exists x, y :: p == PairwiseOf(x, y)
  }

  lemma RatesOfPair(x: Index, y: Index, w: Which)
    ensures var p := PairwiseOf(x, y);
            UnitInterval(RateOf(w, p)) && (p.both == 0 ==> RateOf(w, p) == 1.0)
    ensures
      var p := PairwiseOf(x, y);
      p.(nextHop := RateOf(NextHopRate, p), protocol := RateOf(ProtocolRate, p), bgpAttr := RateOf(BgpAttrRate, p)) == p
  {
    hide SafeDiv, NextHopsAgree, BgpAgree, UnitInterval;
    var both := x.Keys * y.Keys;
    SubsetSize(Agreeing(x, y, NextHopsAgree), both);
    SubsetSize(Agreeing(x, y, SameProtocol), both);
    SubsetSize(Agreeing(x, y, BothBgp), both);
    assert Agreeing(x, y, BgpAgree) <= Agreeing(x, y, BothBgp) by { AttrsOfBgpOnly(x, y); }
    SubsetSize(Agreeing(x, y, BgpAgree), Agreeing(x, y, BothBgp));
    SafeDivUnit(|Agreeing(x, y, NextHopsAgree)|, |both|);
    SafeDivUnit(|Agreeing(x, y, SameProtocol)|, |both|);
    SafeDivUnit(|Agreeing(x, y, BgpAgree)|, |Agreeing(x, y, BothBgp)|);
    NothingDivided();
  }

  lemma AttrsOfBgpOnly(x: Index, y: Index)
    ensures Agreeing(x, y, BgpAgree) <= Agreeing(x, y, BothBgp)
  {
  }

  // ---- the two means ----------------------------------------------------

  function Rates(w: Which, ps: seq<PairAgreement>): (rs: seq<real>)
    ensures |rs| == |ps| && forall i | 0 <= i < |ps| :: rs[i] == RateOf(w, ps[i])
  {
    seq(|ps|, i requires 0 <= i < |ps| => RateOf(w, ps[i]))
  }

  /** The topologies with a key that both sides hold, in order. */
  function Covered(ps: seq<PairAgreement>): seq<PairAgreement> {
    if ps == [] then []
    else
      var last := ps[|ps| - 1];
      Covered(ps[..|ps| - 1]) + (if last.both > 0 then [last] else [])
  }

  /** A topology is covered, as often as it is listed, exactly when some key is held by both sides. */
  lemma {:induction false} CoveredMeans(ps: seq<PairAgreement>, x: Index, y: Index)
    ensures var p := PairwiseOf(x, y);
            multiset(Covered(ps))[p] == if exists k :: k in x && k in y then multiset(ps)[p] else 0
  {
    hide PairwiseOf;
    var p := PairwiseOf(x, y);
    BothMeans(x, y);
    if ps == [] {
    } else {
      var init, last := ps[..|ps| - 1], ps[|ps| - 1];
      assert ps == init + [last];
      CoveredMeans(init, x, y);
    }
  }

  lemma BothMeans(x: Index, y: Index)
    ensures PairwiseOf(x, y).both > 0 <==> exists k :: k in x && k in y
  {
    hide SafeDiv, Agreeing, Jaccard;
    var both := x.Keys * y.Keys;
    if k :| k in x && k in y {
      assert k in both;
    }
    if |both| > 0 {
      var k :| k in both;
    }
  }

  function MeanOrOne(xs: seq<real>): real {
    if xs == [] then 1.0 else Mean(xs)
  }

  lemma SumAppend(xs: seq<real>, x: real)
    ensures Sum(xs + [x]) == Sum(xs) + x
  {
    var ys := xs + [x];
    PrefixSums(ys, ys, xs, xs, |xs|);
    SumSucc(ys, |xs|);
  }

  /** The sum over all topologies is that over the covered ones, and 1 for each of the others. */
  lemma {:induction false} UncoveredCountAsOne(w: Which, ps: seq<PairAgreement>)
    requires forall p :: p in ps ==> IsPublished(p)
    ensures |Covered(ps)| <= |ps|
    ensures Sum(Rates(w, ps)) == Sum(Rates(w, Covered(ps))) + (|ps| - |Covered(ps)|) as real
    ensures 0.0 <= Sum(Rates(w, Covered(ps))) <= |Covered(ps)| as real
  {
    hide Sum, RateOf, PairwiseOf;
    if ps == [] {
      assert Rates(w, ps) == [] && Rates(w, Covered(ps)) == [];
      assert Sum([]) == 0.0 by { NothingSummed(); }
    } else {
      var init, p := ps[..|ps| - 1], ps[|ps| - 1];
      assert ps == init + [p] && p in ps;
      UncoveredCountAsOne(w, init);
      var x, y :| p == PairwiseOf(x, y);
      RatesOfPair(x, y, w);
      assert Rates(w, ps) == Rates(w, init) + [RateOf(w, p)];
      SumAppend(Rates(w, init), RateOf(w, p));
      if p.both > 0 {
        assert Rates(w, Covered(ps)) == Rates(w, Covered(init)) + [RateOf(w, p)];
        SumAppend(Rates(w, Covered(init)), RateOf(w, p));
      } else {
        assert Covered(ps) == Covered(init);
      }
    }
  }

  lemma NothingSummed()
    ensures Sum([]) == 0.0
  {
  }

  /** The mean of `m` numbers that sum to `s <= m` rises when `k` ones join them, and stays exactly
      when none join or all of them were ones. */
  lemma OnesJoin(s: real, m: real, k: real, n: real, t: real)
    requires 0.0 <= s <= m && 0.0 < m && 0.0 <= k && n == m + k && t == s + k
    ensures s / m <= t / n
    ensures s / m == t / n <==> k == 0.0 || s / m == 1.0
  {
    FractionRises(s, m, t, n, k);
    QuotientsCompare(t, n, s, m);
    QuotientOne(s, m);
    var z := m - s;
    GainOfOnes(s, m, k, n, t, z);
    if t * m <= s * n {
      MulNonNegative(k, z);
      ProductZero(k, z);
    }
  }

  lemma GainOfOnes(s: real, m: real, k: real, n: real, t: real, z: real)
    requires n == m + k && t == s + k && z == m - s
    ensures t * m - s * n == k * z
  {
    assert t * m == s * m + k * m;
    assert s * n == s * m + s * k;
    assert k * z == k * m - k * s;
  }

  /** The mean over all topologies is at least the mean over the covered ones, and equals it exactly
      when all are covered or the covered ones agree fully, so that their mean is 1 as well. */
  lemma NaiveMeanFlatters(w: Which, ps: seq<PairAgreement>)
    requires ps != [] && forall p :: p in ps ==> IsPublished(p)
    ensures MeanOrOne(Rates(w, Covered(ps))) <= MeanOrOne(Rates(w, ps))
    ensures MeanOrOne(Rates(w, Covered(ps))) == MeanOrOne(Rates(w, ps)) <==>
            |Covered(ps)| == |ps| || MeanOrOne(Rates(w, Covered(ps))) == 1.0
    ensures Covered(ps) == [] ==> MeanOrOne(Rates(w, ps)) == MeanOrOne(Rates(w, Covered(ps))) == 1.0
  {
    hide Sum, Covered, RateOf, IsPublished;
    UncoveredCountAsOne(w, ps);
    var covered := Covered(ps);
    var s, t, n := Sum(Rates(w, covered)), Sum(Rates(w, ps)), |ps| as real;
    if covered == [] {
      assert s == 0.0 && t == n;
      assert t / n == 1.0;
    } else {
      OnesJoin(s, |covered| as real, (|ps| - |covered|) as real, n, t);
    }
  }
}

/** Both simulators against the truth and against each other (harness/pipeline.py). */
module ThreeWay {
  import opened RealArithmetic
  import opened Fib
  import opened FibIndex
  import opened Metrics
  import opened Reconcile

  datatype ThreeWayAgreement = ThreeWayAgreement(
    batfishTruth: PairAgreement, hammerheadTruth: PairAgreement, batfishHammerhead: PairAgreement)

  method ComputeThreeWay(truth: Index, batfish: Index, hammerhead: Index) returns (a: ThreeWayAgreement)
    ensures a.batfishTruth == PairwiseOf(batfish, truth) && a.hammerheadTruth == PairwiseOf(hammerhead, truth)
    ensures a.batfishHammerhead == PairwiseOf(batfish, hammerhead)
  {
    var bt := PairwiseAgreement(batfish, truth);
    var ht := PairwiseAgreement(hammerhead, truth);
    var bh := PairwiseAgreement(batfish, hammerhead);
    a := ThreeWayAgreement(bt, ht, bh);
  }

  /** The keys among `keys` on which two indexes disagree. */
  function Disagreeing(keys: set<RouteKey>, x: Index, y: Index, rel: (Route, Route) -> bool): set<RouteKey> {
    keys - Agreeing(x, y, rel)
  }

  /** Two routes that agree with a third agree with each other. */
  ghost predicate Euclidean(rel: (Route, Route) -> bool) {
    forall a, b, t :: rel(a, t) && rel(b, t) ==> rel(a, b)
  }

  lemma LenientIsEuclidean()
    ensures Euclidean(NextHopsAgree) && Euclidean(SameProtocol)
  {
    hide NextHopsAgree;
    forall a, b, t | NextHopsAgree(a, t) && NextHopsAgree(b, t) ensures NextHopsAgree(a, b) {
      NextHopsAgreeEquivalence(t, b, b);
      NextHopsAgreeEquivalence(a, t, b);
    }
  }

  lemma UnionSize<T>(a: set<T>, b: set<T>)
    ensures |a + b| <= |a| + |b|
  {
  }

  /** On keys that all three indexes hold, the simulators disagree with each other at most as often as
      they disagree with the truth, taken together. */
  lemma TriangleOnKeys(keys: set<RouteKey>, t: Index, b: Index, h: Index, rel: (Route, Route) -> bool)
    requires Euclidean(rel) && keys <= t.Keys * b.Keys * h.Keys
    ensures Disagreeing(keys, b, h, rel) <= Disagreeing(keys, b, t, rel) + Disagreeing(keys, h, t, rel)
    ensures |Disagreeing(keys, b, h, rel)| <= |Disagreeing(keys, b, t, rel)| + |Disagreeing(keys, h, t, rel)|
  {
    var bt, ht := Disagreeing(keys, b, t, rel), Disagreeing(keys, h, t, rel);
    SubsetSize(Disagreeing(keys, b, h, rel), bt + ht);
    UnionSize(bt, ht);
  }

  /** The next-hop and protocol disagreements satisfy the triangle inequality on the shared keys. */
  lemma ThreeWayTriangle(t: Index, b: Index, h: Index)
    ensures var keys := t.Keys * b.Keys * h.Keys;
            && |Disagreeing(keys, b, h, NextHopsAgree)|
               <= |Disagreeing(keys, b, t, NextHopsAgree)| + |Disagreeing(keys, h, t, NextHopsAgree)|
            && |Disagreeing(keys, b, h, SameProtocol)|
               <= |Disagreeing(keys, b, t, SameProtocol)| + |Disagreeing(keys, h, t, SameProtocol)|
  {
    LenientIsEuclidean();
    var keys := t.Keys * b.Keys * h.Keys;
    TriangleOnKeys(keys, t, b, h, NextHopsAgree);
    TriangleOnKeys(keys, t, b, h, SameProtocol);
  }

  // ---- the published rates ----------------------------------------------

  /** The keys that both indexes hold with routes that disagree. */
  function Differ(x: Index, y: Index, rel: (Route, Route) -> bool): set<RouteKey> {
    Disagreeing(x.Keys * y.Keys, x, y, rel)
  }

  lemma DifferIsRest(x: Index, y: Index, rel: (Route, Route) -> bool)
    ensures |Agreeing(x, y, rel)| + |Differ(x, y, rel)| == |x.Keys * y.Keys|
  {
    assert x.Keys * y.Keys == Agreeing(x, y, rel) + Differ(x, y, rel);
  }

  /** The simulators differ on a key that the truth also holds, where one of them differs from the
      truth, or on a key that the truth does not hold. */
  lemma DifferTriangle(t: Index, b: Index, h: Index, rel: (Route, Route) -> bool)
    requires Euclidean(rel)
    ensures |Differ(b, h, rel)| <= |Differ(b, t, rel)| + |Differ(h, t, rel)| + |b.Keys * h.Keys - t.Keys|
  {
    var bt, ht, missing := Differ(b, t, rel), Differ(h, t, rel), b.Keys * h.Keys - t.Keys;
    assert Differ(b, h, rel) <= bt + ht + missing;
    SubsetSize(Differ(b, h, rel), bt + ht + missing);
    UnionSize(bt + ht, missing);
    UnionSize(bt, ht);
  }

  /** What a rate over `n` keys leaves, in keys. */
  function Apart(n: nat, rate: real): real {
    n as real * (1.0 - rate)
  }

  lemma ApartIsDiffer(agree: nat, differ: nat, n: nat)
    requires agree + differ == n
    ensures Apart(n, SafeDiv(agree, n)) == differ as real
  {
    if n == 0 {
    } else {
      var d, x, y := n as real, agree as real, differ as real;
      var q := x / d;
      assert SafeDiv(agree, n) == q && q * d == x && x + y == d;
      assert d * (1.0 - q) == d - q * d;
    }
  }

  lemma PairInKeys(x: Index, y: Index)
    ensures var p := PairwiseOf(x, y);
            && Apart(p.both, p.nextHop) == |Differ(x, y, NextHopsAgree)| as real
            && Apart(p.both, p.protocol) == |Differ(x, y, SameProtocol)| as real
  {
    hide SafeDiv, Agreeing, Differ, NextHopsAgree, SameProtocol, Apart, Jaccard;
    var both := |x.Keys * y.Keys|;
    DifferIsRest(x, y, NextHopsAgree);
    DifferIsRest(x, y, SameProtocol);
    ApartIsDiffer(|Agreeing(x, y, NextHopsAgree)|, |Differ(x, y, NextHopsAgree)|, both);
    ApartIsDiffer(|Agreeing(x, y, SameProtocol)|, |Differ(x, y, SameProtocol)|, both);
  }

  /** The published rates of the three pairs, for any three indexes: weighted by the keys they are
      rates of, the simulators' disagreement with each other is at most their disagreement with the
      truth plus the keys they share that the truth lacks. */
  lemma WeightedRatesTriangle(t: Index, b: Index, h: Index)
    ensures var bt, ht, bh := PairwiseOf(b, t), PairwiseOf(h, t), PairwiseOf(b, h);
            var missing := |b.Keys * h.Keys - t.Keys| as real;
            && Apart(bh.both, bh.nextHop) <= Apart(bt.both, bt.nextHop) + Apart(ht.both, ht.nextHop) + missing
            && Apart(bh.both, bh.protocol) <= Apart(bt.both, bt.protocol) + Apart(ht.both, ht.protocol) + missing
  {
    hide SafeDiv, Agreeing, Differ, Euclidean, NextHopsAgree, SameProtocol, Apart, PairwiseOf;
    LenientIsEuclidean();
    DifferTriangle(t, b, h, NextHopsAgree);
    DifferTriangle(t, b, h, SameProtocol);
    PairInKeys(b, t);
    PairInKeys(h, t);
    PairInKeys(b, h);
  }

  lemma PairOver(x: Index, y: Index, keys: set<RouteKey>)
    requires x.Keys == y.Keys == keys
    ensures PairwiseOf(x, y).both == |keys|
    ensures keys == {} ==> PairwiseOf(x, y).nextHop == 1.0 && PairwiseOf(x, y).protocol == 1.0
  {
    assert x.Keys * y.Keys == keys;
  }

  lemma ApartTriangle(n: nat, x: real, y: real, z: real)
    requires n > 0 && Apart(n, x) <= Apart(n, y) + Apart(n, z)
    ensures 1.0 - x <= (1.0 - y) + (1.0 - z)
  {
    var d, u, v, w := n as real, 1.0 - x, 1.0 - y, 1.0 - z;
    assert d * (v + w) == d * v + d * w;
    CancelLeq(u, v + w, d);
  }

  /** In particular, where the three sides hold the same keys, the rates themselves obey the triangle
      inequality: two simulators close to the truth are close to each other. */
  lemma RatesTriangle(t: Index, b: Index, h: Index)
    requires t.Keys == b.Keys == h.Keys
    ensures var bt, ht, bh := PairwiseOf(b, t), PairwiseOf(h, t), PairwiseOf(b, h);
            && 1.0 - bh.nextHop <= (1.0 - bt.nextHop) + (1.0 - ht.nextHop)
            && 1.0 - bh.protocol <= (1.0 - bt.protocol) + (1.0 - ht.protocol)
  {
    hide PairwiseOf, Apart;
    var bt, ht, bh, n := PairwiseOf(b, t), PairwiseOf(h, t), PairwiseOf(b, h), |t.Keys|;
    PairOver(b, t, t.Keys);
    PairOver(h, t, t.Keys);
    PairOver(b, h, t.Keys);
    if n > 0 {
      WeightedRatesTriangle(t, b, h);
      assert b.Keys * h.Keys - t.Keys == {};
      ApartTriangle(n, bh.nextHop, bt.nextHop, ht.nextHop);
      ApartTriangle(n, bh.protocol, bt.protocol, ht.protocol);
    }
  }
}

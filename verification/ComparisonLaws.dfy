/** What the comparisons of two routes mean on their fields, and so what the published numbers say about
    the routes themselves (harness/diff/engine.py, harness/pipeline.py). */
module ComparisonLaws {
  import opened Ordering
  import opened RealArithmetic
  import opened Text
  import opened TextLaws
  import opened Fib
  import opened FibIndex
  import opened Diff
  import opened Metrics
  import opened Reconcile

  // ---- strict comparisons -----------------------------------------------

  /** Next hops match strictly when every (address, interface) pair of one is a pair of the other. */
  ghost predicate SameHops(a: Route, b: Route) {
    forall nh :: nh in a.nextHops <==> nh in b.nextHops
  }

  lemma NextHopsEqualMeans(a: Route, b: Route)
    ensures NextHopsEqual(a, b) <==> SameHops(a, b)
  {
    assert forall nh :: nh in a.nextHops <==> nh in NextHopSet(a);
    assert forall nh :: nh in b.nextHops <==> nh in NextHopSet(b);
  }

  /** The attributes of two routes match when handing them over changes nothing. */
  predicate SameAttributes(a: Route, b: Route) {
    a.(asPath := b.asPath, localPref := b.localPref, med := b.med) == a
  }

  lemma BgpAttrsEqualMeans(a: Route, b: Route)
    ensures BgpAttrsEqual(a, b) <==> SameAttributes(a, b)
  {
  }

  // ---- next hops across simulators --------------------------------------

  ghost predicate Carries(r: Route, ip: string) {
    exists nh :: nh in r.nextHops && nh.ip == Some(ip)
  }

  ghost predicate Addressed(r: Route) {
    exists ip :: Carries(r, ip)
  }

  ghost predicate NamesInterface(r: Route) {
    exists nh, name :: nh in r.nextHops && nh.iface == Some(name) && |name| > 0
  }

  /** Two routes forward alike when the same addresses are carried by both; if neither has one, when
      both or neither name an interface. */
  ghost predicate ForwardAlike(a: Route, b: Route) {
    if Addressed(a) || Addressed(b) then forall ip :: Carries(a, ip) <==> Carries(b, ip)
    else NamesInterface(a) <==> NamesInterface(b)
  }

  lemma IpsAreCarried(r: Route)
    ensures forall ip :: ip in NextHopIps(r) <==> Carries(r, ip)
    ensures NextHopIps(r) != {} <==> Addressed(r)
    ensures HasInterface(r) <==> NamesInterface(r)
  {
    forall ip ensures ip in NextHopIps(r) <==> Carries(r, ip) {
      if Carries(r, ip) {
        var nh :| nh in r.nextHops && nh.ip == Some(ip);
        assert nh.ip.value in NextHopIps(r);
      }
    }
    if NextHopIps(r) != {} {
      var ip :| ip in NextHopIps(r);
      assert Carries(r, ip);
    }
    if HasInterface(r) {
      var nh :| nh in r.nextHops && nh.iface.Some? && nh.iface.value != "";
      assert nh.iface == Some(nh.iface.value) && |nh.iface.value| > 0;
    }
  }

  lemma NextHopsAgreeMeans(a: Route, b: Route)
    ensures NextHopsAgree(a, b) <==> ForwardAlike(a, b)
    ensures Addressed(a) != Addressed(b) ==> !NextHopsAgree(a, b)
  {
    hide NextHopIps, HasInterface, Carries, NamesInterface;
    IpsAreCarried(a);
    IpsAreCarried(b);
  }

  // ---- what the rates say -----------------------------------------------

  lemma SafeDivMeans(num: nat, denom: nat)
    requires num <= denom
    ensures SafeDiv(num, denom) * denom as real == num as real
    ensures SafeDiv(num, denom) == 1.0 <==> num == denom
    ensures SafeDiv(num, denom) == 0.0 <==> num == 0 < denom
  {
    if denom > 0 {
      QuotientOne(num as real, denom as real);
      assert num as real / denom as real * denom as real == num as real;
    }
  }

  lemma SubsetIsAll<T>(a: set<T>, b: set<T>)
    requires a <= b
    ensures |a| <= |b|
    ensures |a| == |b| <==> a == b
    ensures |a| == 0 <==> a == {}
  {
    SubsetSize(a, b);
    if a != b {
      SubsetSize(b - a, b);
      assert b == a + (b - a) && |b| == |a| + |b - a|;
      assert b - a != {};
    }
  }

  /** A share of the shared keys is 1 exactly when the relation holds at each of them, and 0 exactly
      when there are some and it holds at none. */
  lemma ShareMeans(x: Index, y: Index, rel: (Route, Route) -> bool)
    ensures
      var rate, shared := SafeDiv(|Agreeing(x, y, rel)|, |x.Keys * y.Keys|), x.Keys * y.Keys;
      && (rate == 1.0 <==> forall k | k in shared :: rel(x[k], y[k]))
      && (rate == 0.0 <==> shared != {} && forall k | k in shared :: !rel(x[k], y[k]))
  {
    var agreeing, shared := Agreeing(x, y, rel), x.Keys * y.Keys;
    SubsetIsAll(agreeing, shared);
    SafeDivMeans(|agreeing|, |shared|);
    assert forall k :: k in agreeing <==> k in shared && rel(x[k], y[k]);
  }

  lemma BgpShareMeans(x: Index, y: Index)
    ensures
      var rate := SafeDiv(|Agreeing(x, y, BgpAgree)|, |Agreeing(x, y, BothBgp)|);
      rate == 1.0 <==>
      forall k | k in x && k in y && x[k].protocol == Bgp && y[k].protocol == Bgp :: SameAttributes(x[k], y[k])
  {
    var agreeing, rows := Agreeing(x, y, BgpAgree), Agreeing(x, y, BothBgp);
    SubsetIsAll(agreeing, rows);
    SafeDivMeans(|agreeing|, |rows|);
    assert forall k :: k in rows <==> k in x && k in y && BothBgp(x[k], y[k]);
    assert forall k :: k in agreeing <==> k in rows && SameAttributes(x[k], y[k]);
  }

  lemma JaccardMeans(x: Index, y: Index)
    ensures Jaccard(x, y) == 1.0 <==> x.Keys == y.Keys
    ensures Jaccard(x, y) == 0.0 <==> x.Keys * y.Keys == {} && x.Keys + y.Keys != {}
  {
    hide SafeDiv;
    var both, union := x.Keys * y.Keys, x.Keys + y.Keys;
    SubsetIsAll(both, union);
    SafeDivMeans(|both|, |union|);
    assert both == union ==> x.Keys <= both && y.Keys <= both;
    assert |union| > 0 <==> union != {};
  }

  /** The published agreement of two simulators, read off their routes. */
  lemma AgreementMeans(x: Index, y: Index)
    ensures
      var a := PairwiseOf(x, y);
      && (a.presence == 1.0 <==> x.Keys == y.Keys)
      && (a.nextHop == 1.0 <==> forall k | k in x && k in y :: ForwardAlike(x[k], y[k]))
      && (a.nextHop == 0.0 <==> x.Keys * y.Keys != {} && forall k | k in x && k in y :: !ForwardAlike(x[k], y[k]))
      && (a.protocol == 1.0 <==> forall k | k in x && k in y :: x[k].protocol == y[k].protocol)
      && (a.bgpAttr == 1.0 <==>
          forall k | k in x && k in y && x[k].protocol == Bgp && y[k].protocol == Bgp :: SameAttributes(x[k], y[k]))
  {
    hide SafeDiv, ForwardAlike, NextHopsAgree, SameAttributes;
    JaccardMeans(x, y);
    ShareMeans(x, y, NextHopsAgree);
    ShareMeans(x, y, SameProtocol);
    BgpShareMeans(x, y);
    forall k | k in x && k in y ensures NextHopsAgree(x[k], y[k]) <==> ForwardAlike(x[k], y[k]) {
      NextHopsAgreeMeans(x[k], y[k]);
    }
  }

  /** The counts beside the rates: together they are the routes of both sides, and presence is their quotient. */
  lemma CountsMean(x: Index, y: Index)
    ensures
      var a := PairwiseOf(x, y);
      && a.both + a.union == |x| + |y| && a.both <= |x| && a.both <= |y|
      && a.presence == if a.union == 0 then 1.0 else a.both as real / a.union as real
  {
    hide Agreeing;
    assert |x| == |x.Keys| && |y| == |y.Keys|;
    Sizes(x.Keys, y.Keys);
  }

  lemma Sizes<T>(a: set<T>, b: set<T>)
    ensures |a * b| + |a + b| == |a| + |b| && |a * b| <= |a| && |a * b| <= |b|
  {
    SubsetSize(a * b, a);
    SubsetSize(a * b, b);
  }

  /** The published match rates of one simulator against the vendor, read off their routes. */
  lemma MatchRatesMean(v: Index, b: Index, h: Index, records: seq<DiffRecord>, which: Simulator)
    requires IsDiff(v, b, h, records)
    ensures
      var s := SimIndex(b, h, which);
      var m := SimMetricsOf(SimRatesOf(records, which), |v|);
      && (m.presenceMatchRate == 1.0 <==> v.Keys <= s.Keys)
      && (m.nextHopMatchRate == 1.0 <==> forall k | k in v && k in s :: SameHops(v[k], s[k]))
      && (m.protocolMatchRate == 1.0 <==> forall k | k in v && k in s :: v[k].protocol == s[k].protocol)
      && (m.bgpAttrMatchRate == 1.0 <==>
          forall k | k in v && k in s && v[k].protocol == Bgp && s[k].protocol == Bgp :: SameAttributes(v[k], s[k]))
  {
    hide SafeDiv, SameHops, NextHopsEqual, SameAttributes, SimMetricsOf, SimRatesOf, IsDiff;
    var s := SimIndex(b, h, which);
    SimMetricsAreSetRates(v, b, h, records, which);
    assert |v| == |v.Keys|;
    SubsetIsAll(v.Keys * s.Keys, v.Keys);
    SafeDivMeans(|v.Keys * s.Keys|, |v.Keys|);
    assert v.Keys * s.Keys == v.Keys <==> v.Keys <= s.Keys;
    ShareMeans(v, s, NextHopsEqual);
    ShareMeans(v, s, SameProtocol);
    BgpShareMeans(v, s);
    forall k | k in v && k in s ensures NextHopsEqual(v[k], s[k]) <==> SameHops(v[k], s[k]) {
      NextHopsEqualMeans(v[k], s[k]);
    }
  }

  // ---- records ----------------------------------------------------------

  /** Keys are listed by node, within a node by VRF and within a VRF by prefix. */
  lemma RouteKeyOrderMeans(a: RouteKey, b: RouteKey)
    ensures RouteKeyLeq(a, b) <==>
            if a.node != b.node then Before(a.node, b.node)
            else if a.vrf != b.vrf then Before(a.vrf, b.vrf)
            else Before(a.prefix, b.prefix)
  {
    hide StringLeq;
    assert [a.node, a.vrf, a.prefix][1..] == [a.vrf, a.prefix] && [b.node, b.vrf, b.prefix][1..] == [b.vrf, b.prefix];
    PairLeq(a.vrf, a.prefix, b.vrf, b.prefix);
    StringLeqMeans(a.node, b.node);
    StringLeqMeans(a.vrf, b.vrf);
    StringLeqMeans(a.prefix, b.prefix);
  }

  /** One simulator's side of a record: its own route, and a bit for each comparison that can be made. */
  ghost predicate SideMeans(side: Side, v: Index, s: Index, k: RouteKey) {
    && (k !in s ==> side.protocol.None? && side.nextHops == [])
    && (k in s ==> side.protocol == Some(s[k].protocol) && side.nextHops == s[k].nextHops)
    && (side.nextHopMatch.Some? <==> k in v && k in s) && (side.protocolMatch.Some? <==> k in v && k in s)
    && (side.bgpAttrsMatch.Some? <==> k in v && k in s && v[k].protocol == Bgp && s[k].protocol == Bgp)
    && (side.nextHopMatch == Some(true) <==> k in v && k in s && SameHops(v[k], s[k]))
    && (side.protocolMatch == Some(true) <==> k in v && k in s && v[k].protocol == s[k].protocol)
    && (side.bgpAttrsMatch == Some(true) <==>
        k in v && k in s && v[k].protocol == Bgp && s[k].protocol == Bgp && SameAttributes(v[k], s[k]))
  }

  lemma BuiltSideMeans(v: Index, s: Index, k: RouteKey)
    ensures SideMeans(BuildSide(Get(v, k), Get(s, k)), v, s, k)
  {
    hide NextHopsEqual, SameHops, SameAttributes, BgpAttrsEqual;
    if k in v && k in s {
      NextHopsEqualMeans(v[k], s[k]);
      BgpAttrsEqualMeans(v[k], s[k]);
    }
  }

  /** Every record of a diff: the presence names exactly the sources that hold the key, and each side
      says what its source holds and how it compares with the vendor's route. */
  lemma RecordMeans(v: Index, b: Index, h: Index, records: seq<DiffRecord>, i: nat)
    requires IsDiff(v, b, h, records) && i < |records|
    ensures
      var r, k := records[i], records[i].key;
      && (r.presence in {AllThree, VendorAndBatfish, VendorAndHammerhead, VendorOnly} <==> k in v)
      && (r.presence in {AllThree, VendorAndBatfish, BatfishAndHammerhead, BatfishOnly} <==> k in b)
      && (r.presence in {AllThree, VendorAndHammerhead, BatfishAndHammerhead, HammerheadOnly} <==> k in h)
      && (k !in v ==> r.vendorProtocol.None? && r.vendorNextHops == [])
      && (k in v ==> r.vendorProtocol == Some(v[k].protocol) && r.vendorNextHops == v[k].nextHops)
      && SideMeans(r.batfish, v, b, k) && SideMeans(r.hammerhead, v, h, k)
  {
    hide Increasing, BuildSide, SideMeans;
    var k := records[i].key;
    assert Faithful(v, b, h, records[i]);
    BuiltSideMeans(v, b, k);
    BuiltSideMeans(v, h, k);
  }
}

/** Head-to-head agreement of two simulators and the loopback reconciler (harness/pipeline.py). */
module Reconcile {
  import opened RealArithmetic
  import opened Text
  import opened Fib
  import opened FibIndex
  import opened Diff
  import opened Metrics

  // ---- forwarding-equivalent next hops ----------------------------------

  function NextHopIps(r: Route): set<string> {
    set nh | nh in r.nextHops && nh.ip.Some? :: nh.ip.value
  }

  predicate HasInterface(r: Route) {
    exists nh :: nh in r.nextHops && nh.iface.Some? && nh.iface.value != ""
  }

  predicate NextHopsAgree(a: Route, b: Route) {
    var aIps, bIps := NextHopIps(a), NextHopIps(b);
    if aIps != {} && bIps != {} then aIps == bIps
    else if aIps == {} && bIps == {} && HasInterface(a) && HasInterface(b) then true
    else if aIps == {} && bIps == {} && !HasInterface(a) && !HasInterface(b) then true
    else false
  }

  /** The lenient relation is an equivalence, and strict (ip, interface) set equality implies it. */
  lemma NextHopsAgreeEquivalence(a: Route, b: Route, c: Route)
    ensures NextHopsAgree(a, a)
    ensures NextHopsAgree(a, b) == NextHopsAgree(b, a)
    ensures NextHopsAgree(a, b) && NextHopsAgree(b, c) ==> NextHopsAgree(a, c)
    ensures NextHopsEqual(a, b) ==> NextHopsAgree(a, b)
  {
    if NextHopsEqual(a, b) {
      assert forall nh :: nh in a.nextHops <==> nh in NextHopSet(a);
      assert forall nh :: nh in b.nextHops <==> nh in NextHopSet(b);
      assert NextHopIps(a) == NextHopIps(b);
      assert HasInterface(a) == HasInterface(b);
    }
  }

  // ---- pairwise agreement -----------------------------------------------

  datatype PairAgreement = PairAgreement(
    both: nat, union: nat, presence: real, nextHop: real, protocol: real, bgpAttr: real)

  function Jaccard(x: Index, y: Index): real {
    SafeDiv(|x.Keys * y.Keys|, |x.Keys + y.Keys|)
  }

  function PairwiseOf(x: Index, y: Index): PairAgreement {
    var both := |x.Keys * y.Keys|;
    PairAgreement(both, |x.Keys + y.Keys|, Jaccard(x, y),
                  SafeDiv(|Agreeing(x, y, NextHopsAgree)|, both),
                  SafeDiv(|Agreeing(x, y, SameProtocol)|, both),
                  SafeDiv(|Agreeing(x, y, BgpAgree)|, |Agreeing(x, y, BothBgp)|))
  }

  /** The keys of `done` that both indexes hold with related routes. */
  ghost function AgreeingIn(done: set<RouteKey>, x: Index, y: Index, rel: (Route, Route) -> bool): set<RouteKey> {
    set k | k in done && k in Agreeing(x, y, rel)
  }

  lemma AgreeingStep(done: set<RouteKey>, k: RouteKey, x: Index, y: Index, rel: (Route, Route) -> bool)
    requires k !in done
    ensures |AgreeingIn(done + {k}, x, y, rel)|
            == |AgreeingIn(done, x, y, rel)| + if k in Agreeing(x, y, rel) then 1 else 0
  {
    assert AgreeingIn(done + {k}, x, y, rel)
           == AgreeingIn(done, x, y, rel) + (if k in Agreeing(x, y, rel) then {k} else {});
  }

  lemma AgreeingAt(k: RouteKey, x: Index, y: Index)
    ensures k in Agreeing(x, y, NextHopsAgree) <==> k in x && k in y && NextHopsAgree(x[k], y[k])
    ensures k in Agreeing(x, y, SameProtocol) <==> k in x && k in y && SameProtocol(x[k], y[k])
    ensures k in Agreeing(x, y, BothBgp) <==> k in x && k in y && BothBgp(x[k], y[k])
    ensures k in Agreeing(x, y, BgpAgree) <==> k in x && k in y && BgpAgree(x[k], y[k])
  {
  }

  /** Counts over the shared keys; a rate over nothing is 1. */
  method PairwiseAgreement(x: Index, y: Index) returns (a: PairAgreement)
    ensures a == PairwiseOf(x, y)
  {
    hide SafeDiv, NextHopsAgree, Agreeing, AgreeingIn;
    NoneAgreeing(x, y);
    var unionKeys, bothKeys := x.Keys + y.Keys, x.Keys * y.Keys;
    var nhAgree, protoAgree, bgpTotal, bgpAgree := 0, 0, 0, 0;
    var todo := bothKeys;
    ghost var done: set<RouteKey> := {};
    while todo != {}
      invariant todo !! done && todo + done == bothKeys
      invariant nhAgree == |AgreeingIn(done, x, y, NextHopsAgree)|
      invariant protoAgree == |AgreeingIn(done, x, y, SameProtocol)|
      invariant bgpTotal == |AgreeingIn(done, x, y, BothBgp)|
      invariant bgpAgree == |AgreeingIn(done, x, y, BgpAgree)|
      decreases |todo|
    {
      var key :| key in todo;
      AgreeingStep(done, key, x, y, NextHopsAgree);
      AgreeingStep(done, key, x, y, SameProtocol);
      AgreeingStep(done, key, x, y, BothBgp);
      AgreeingStep(done, key, x, y, BgpAgree);
      AgreeingAt(key, x, y);
      if NextHopsAgree(x[key], y[key]) {
        nhAgree := nhAgree + 1;
      }
      if x[key].protocol == y[key].protocol {
        protoAgree := protoAgree + 1;
      }
      if BothBgp(x[key], y[key]) {
        bgpTotal := bgpTotal + 1;
        if BgpAttrsEqual(x[key], y[key]) {
          bgpAgree := bgpAgree + 1;
        }
      }
      todo, done := todo - {key}, done + {key};
    }
    AllAgreeing(done, x, y);
    a := PairAgreement(
      |bothKeys|, |unionKeys|,
      SafeDiv(|bothKeys|, |unionKeys|),
      SafeDiv(nhAgree, |bothKeys|),
      SafeDiv(protoAgree, |bothKeys|),
      SafeDiv(bgpAgree, bgpTotal));
  }

  lemma NoneAgreeing(x: Index, y: Index)
    ensures AgreeingIn({}, x, y, NextHopsAgree) == {} && AgreeingIn({}, x, y, SameProtocol) == {}
    ensures AgreeingIn({}, x, y, BothBgp) == {} && AgreeingIn({}, x, y, BgpAgree) == {}
  {
  }

  lemma AllAgreeing(done: set<RouteKey>, x: Index, y: Index)
    requires x.Keys * y.Keys <= done
    ensures AgreeingIn(done, x, y, NextHopsAgree) == Agreeing(x, y, NextHopsAgree)
    ensures AgreeingIn(done, x, y, SameProtocol) == Agreeing(x, y, SameProtocol)
    ensures AgreeingIn(done, x, y, BothBgp) == Agreeing(x, y, BothBgp)
    ensures AgreeingIn(done, x, y, BgpAgree) == Agreeing(x, y, BgpAgree)
  {
  }

  /** Agreement does not depend on which index comes first. */
  lemma PairwiseSymmetric(x: Index, y: Index)
    ensures PairwiseOf(x, y) == PairwiseOf(y, x)
  {
    forall a: Route, b: Route ensures NextHopsAgree(a, b) == NextHopsAgree(b, a) {
      NextHopsAgreeEquivalence(a, b, b);
    }
    assert x.Keys * y.Keys == y.Keys * x.Keys && x.Keys + y.Keys == y.Keys + x.Keys;
    assert Agreeing(x, y, NextHopsAgree) == Agreeing(y, x, NextHopsAgree);
    assert Agreeing(x, y, SameProtocol) == Agreeing(y, x, SameProtocol);
    assert Agreeing(x, y, BothBgp) == Agreeing(y, x, BothBgp);
    assert Agreeing(x, y, BgpAgree) == Agreeing(y, x, BgpAgree);
  }

  // ---- a simulator against vendor truth ---------------------------------

  lemma SafeDivMonotone(a: nat, b: nat, n: nat)
    requires a <= b
    ensures SafeDiv(a, n) <= SafeDiv(b, n)
  {
    if n > 0 {
      QuotientsOrdered(a as real, n as real, b as real, n as real);
    }
  }

  lemma SafeDivAntitone(num: nat, small: nat, large: nat)
    requires num <= small <= large
    ensures SafeDiv(num, large) <= SafeDiv(num, small)
  {
    if small == 0 {
      SafeDivUnit(num, large);
    } else {
      assert num * small <= num * large;
      QuotientsOrdered(num as real, large as real, num as real, small as real);
    }
  }

  /** Recall of the truth is at least the Jaccard overlap. */
  lemma JaccardBelowRecall(v: Index, s: Index)
    ensures Jaccard(s, v) <= SafeDiv(|v.Keys * s.Keys|, |v|)
  {
    hide SafeDiv;
    var both, union := v.Keys * s.Keys, s.Keys + v.Keys;
    assert s.Keys * v.Keys == both && |v.Keys| == |v|;
    SubsetSize(both, v.Keys);
    SubsetSize(v.Keys, union);
    SafeDivAntitone(|both|, |v|, |union|);
  }

  /** For a simulator against the truth, the pairwise rates relate to those the diff engine publishes:
      the lenient next-hop rate is no lower, protocol and BGP rates are the same, presence is no higher. */
  lemma PairwiseAgainstEngine(v: Index, b: Index, h: Index, records: seq<DiffRecord>, which: Simulator)
    requires IsDiff(v, b, h, records)
    ensures var s := SimIndex(b, h, which);
            var engine, pair := SimMetricsOf(SimRatesOf(records, which), |v|), PairwiseOf(s, v);
            && pair.both == SimRatesOf(records, which).presentInBoth
            && pair.nextHop >= engine.nextHopMatchRate
            && pair.protocol == engine.protocolMatchRate
            && pair.bgpAttr == engine.bgpAttrMatchRate
            && pair.presence <= engine.presenceMatchRate
  {
    var s := SimIndex(b, h, which);
    SimMetricsAreSetRates(v, b, h, records, which);
    PerProtocolSums(v, b, h, records, which);
    PairwiseSymmetric(v, s);
    var strict, lenient := Agreeing(v, s, NextHopsEqual), Agreeing(v, s, NextHopsAgree);
    forall k | k in strict ensures k in lenient {
      NextHopsAgreeEquivalence(v[k], s[k], s[k]);
    }
    SubsetSize(strict, lenient);
    SafeDivMonotone(|strict|, |lenient|, |v.Keys * s.Keys|);
    JaccardBelowRecall(v, s);
  }

  // ---- reconciliation ---------------------------------------------------

  predicate LooksLikeLoopbackHost(r: Route) {
    if !EndsWith(r.prefix, "/32") then false
    else if r.protocol !in {Connected, Local, Isis, Ospf} then false
    else if r.protocol == Connected || r.protocol == Local then
      exists nh :: nh in r.nextHops && IsLoopbackInterface(nh)
    else true
  }

  /** The loopback-like keys of `x` that `y` does not hold. */
  function OneSided(x: Index, y: Index): set<RouteKey> {
    set k | k in x && k !in y && LooksLikeLoopbackHost(x[k])
  }

  function Restrict(x: Index, keys: set<RouteKey>): Index {
    map k | k in x && k in keys :: x[k]
  }

  function Without(x: Index, keys: set<RouteKey>): Index {
    map k | k in x && k !in keys :: x[k]
  }

  datatype Reconciliation = Reconciliation(bf: Index, hh: Index, moved: nat)

  function Reconciled(bf: Index, hh: Index, policy: LoopbackPolicy): Reconciliation {
    var onlyBf, onlyHh := OneSided(bf, hh), OneSided(hh, bf);
    match policy
    case PASSTHROUGH => Reconciliation(bf, hh, 0)
    case STRIP => Reconciliation(Without(bf, onlyBf + onlyHh), Without(hh, onlyBf + onlyHh), |onlyBf| + |onlyHh|)
    case MATERIALIZE => Reconciliation(bf + Restrict(hh, onlyHh), hh + Restrict(bf, onlyBf), |onlyBf| + |onlyHh|)
  }

  lemma OneSidedKeys(x: Index, y: Index)
    ensures OneSided(x, y) <= x.Keys - y.Keys
  {
  }

  /** `x` after the entries are stored one by one. */
  function Overlay(x: Index, entries: seq<(RouteKey, Route)>): Index {
    if entries == [] then x
    else Overlay(x, entries[..|entries| - 1])[entries[|entries| - 1].0 := entries[|entries| - 1].1]
  }

  lemma OverlayNone(x: Index)
    ensures forall base :: Overlay(base, []) == base + Restrict(x, {})
  {
    assert Restrict(x, {}) == map[];
  }

  lemma OverlayStep(x: Index, y: Index, entries: seq<(RouteKey, Route)>, keys: set<RouteKey>, k: RouteKey)
    requires forall base :: Overlay(base, entries) == base + Restrict(x, keys)
    requires k in x
    ensures forall base :: Overlay(base, entries + [(k, x[k])]) == base + Restrict(x, keys + {k})
  {
    var more := entries + [(k, x[k])];
    assert more[..|more| - 1] == entries;
    forall base ensures Overlay(base, more) == base + Restrict(x, keys + {k}) {
      assert Overlay(base, entries) == base + Restrict(x, keys);
      assert (base + Restrict(x, keys))[k := x[k]] == base + Restrict(x, keys + {k});
    }
  }

  /** `mirror` and `strip` hold the loopback-like one-sided rows of `x` outside `todo`. */
  ghost predicate Collected(x: Index, y: Index, todo: set<RouteKey>,
                            mirror: seq<(RouteKey, Route)>, strip: set<RouteKey>)
  {
    && strip == OneSided(x, y) - todo && |mirror| == |strip|
    && forall base :: Overlay(base, mirror) == base + Restrict(x, strip)
  }

  lemma CollectedNone(x: Index, y: Index)
    ensures Collected(x, y, x.Keys - y.Keys, [], {})
  {
    OneSidedKeys(x, y);
    OverlayNone(x);
  }

  lemma CollectedStep(x: Index, y: Index, todo: set<RouteKey>,
                      mirror: seq<(RouteKey, Route)>, strip: set<RouteKey>, k: RouteKey)
    requires Collected(x, y, todo, mirror, strip) && k in todo && todo <= x.Keys - y.Keys
    ensures LooksLikeLoopbackHost(x[k]) ==> Collected(x, y, todo - {k}, mirror + [(k, x[k])], strip + {k})
    ensures !LooksLikeLoopbackHost(x[k]) ==> Collected(x, y, todo - {k}, mirror, strip)
  {
    hide LooksLikeLoopbackHost, Overlay, Restrict;
    if LooksLikeLoopbackHost(x[k]) {
      OverlayStep(x, y, mirror, strip, k);
      assert strip + {k} == OneSided(x, y) - (todo - {k});
    } else {
      assert strip == OneSided(x, y) - (todo - {k});
    }
  }

  /** The loop over the keys of one side: which rows to strip, and what to mirror on the other side. */
  method CollectOneSided(x: Index, y: Index) returns (mirror: seq<(RouteKey, Route)>, strip: set<RouteKey>)
    ensures strip == OneSided(x, y) && |mirror| == |strip|
    ensures forall base :: Overlay(base, mirror) == base + Restrict(x, OneSided(x, y))
  {
    hide LooksLikeLoopbackHost, Collected;
    mirror, strip := [], {};
    var todo := x.Keys - y.Keys;
    CollectedNone(x, y);
    while todo != {}
      invariant todo <= x.Keys - y.Keys && Collected(x, y, todo, mirror, strip)
      decreases |todo|
    {
      var k :| k in todo;
      CollectedStep(x, y, todo, mirror, strip, k);
      if LooksLikeLoopbackHost(x[k]) {
        strip := strip + {k};
        mirror := mirror + [(k, x[k])];
      }
      todo := todo - {k};
    }
    CollectedAll(x, y, mirror, strip);
  }

  lemma CollectedAll(x: Index, y: Index, mirror: seq<(RouteKey, Route)>, strip: set<RouteKey>)
    requires Collected(x, y, {}, mirror, strip)
    ensures strip == OneSided(x, y) && |mirror| == |strip|
    ensures forall base :: Overlay(base, mirror) == base + Restrict(x, OneSided(x, y))
  {
  }

  method Mirror(x: Index, entries: seq<(RouteKey, Route)>) returns (out: Index)
    ensures out == Overlay(x, entries)
  {
    out := x;
    for i := 0 to |entries|
      invariant out == Overlay(x, entries[..i])
    {
      out := out[entries[i].0 := entries[i].1];
      assert entries[..i + 1][..i] == entries[..i];
    }
    assert entries[..|entries|] == entries;
  }

  method ReconcileLoopbackHostRoutes(bf: Index, hh: Index, policy: LoopbackPolicy)
    returns (bfOut: Index, hhOut: Index, moved: nat)
    ensures Reconciliation(bfOut, hhOut, moved) == Reconciled(bf, hh, policy)
  {
    hide Overlay, Restrict, OneSided, Without;
    if policy == PASSTHROUGH {
      return bf, hh, 0;
    }
    var mirrorOnHh, stripBf := CollectOneSided(bf, hh);
    var mirrorOnBf, stripHh := CollectOneSided(hh, bf);
    var toStrip := stripBf + stripHh;
    assert |toStrip| == |stripBf| + |stripHh| by {
      OneSidedDisjoint(bf, hh);
    }
    if policy == STRIP {
      return Without(bf, toStrip), Without(hh, toStrip), |toStrip|;
    }
    bfOut := Mirror(bf, mirrorOnBf);
    hhOut := Mirror(hh, mirrorOnHh);
    moved := |mirrorOnHh| + |mirrorOnBf|;
  }

  lemma OneSidedDisjoint(x: Index, y: Index)
    ensures OneSided(x, y) !! OneSided(y, x)
    ensures |OneSided(x, y) + OneSided(y, x)| == |OneSided(x, y)| + |OneSided(y, x)|
  {
  }
}

/** What reconciliation does, and does not do, to the published agreement numbers. */
module ReconcileLaws {
  import opened RealArithmetic
  import opened Text
  import opened Fib
  import opened FibIndex
  import opened Diff
  import opened Metrics
  import opened Reconcile

  function Moved(bf: Index, hh: Index): set<RouteKey> {
    OneSided(bf, hh) + OneSided(hh, bf)
  }

  // ---- keys -------------------------------------------------------------

  lemma MirroredKeys(x: Index, y: Index, a: set<RouteKey>, b: set<RouteKey>)
    requires a <= x.Keys - y.Keys && b <= y.Keys - x.Keys
    ensures var x', y' := x + Restrict(y, b), y + Restrict(x, a);
            && x'.Keys == x.Keys + b && y'.Keys == y.Keys + a
            && x'.Keys * y'.Keys == x.Keys * y.Keys + (a + b)
            && x'.Keys + y'.Keys == x.Keys + y.Keys
  {
    assert Restrict(y, b).Keys == b && Restrict(x, a).Keys == a;
  }

  lemma MirroredAgreeing(x: Index, y: Index, a: set<RouteKey>, b: set<RouteKey>, rel: (Route, Route) -> bool)
    requires a <= x.Keys - y.Keys && b <= y.Keys - x.Keys
    ensures Agreeing(x + Restrict(y, b), y + Restrict(x, a), rel)
            == Agreeing(x, y, rel) + ((set k | k in a && rel(x[k], x[k])) + (set k | k in b && rel(y[k], y[k])))
  {
    MirroredKeys(x, y, a, b);
    var x', y' := x + Restrict(y, b), y + Restrict(x, a);
    forall k | k in x' && k in y'
      ensures x'[k] == (if k in b then y[k] else x[k]) && y'[k] == (if k in a then x[k] else y[k])
    {
    }
  }

  lemma WithoutKeys(x: Index, y: Index, drop: set<RouteKey>)
    requires drop !! x.Keys * y.Keys
    ensures Without(x, drop).Keys * Without(y, drop).Keys == x.Keys * y.Keys
    ensures Without(x, drop).Keys + Without(y, drop).Keys == x.Keys + y.Keys - drop
  {
  }

  lemma StripKeys(bf: Index, hh: Index)
    ensures var r := Reconciled(bf, hh, STRIP);
            && r.bf.Keys * r.hh.Keys == bf.Keys * hh.Keys
            && r.bf.Keys + r.hh.Keys == bf.Keys + hh.Keys - Moved(bf, hh)
  {
    OneSidedKeys(bf, hh);
    OneSidedKeys(hh, bf);
    WithoutKeys(bf, hh, Moved(bf, hh));
  }

  lemma MaterializeKeys(bf: Index, hh: Index)
    ensures var r := Reconciled(bf, hh, MATERIALIZE);
            && r.bf.Keys * r.hh.Keys == bf.Keys * hh.Keys + Moved(bf, hh)
            && r.bf.Keys + r.hh.Keys == bf.Keys + hh.Keys
  {
    OneSidedKeys(bf, hh);
    OneSidedKeys(hh, bf);
    MirroredKeys(bf, hh, OneSided(bf, hh), OneSided(hh, bf));
  }

  lemma MovedSize(bf: Index, hh: Index)
    ensures |Moved(bf, hh)| == |OneSided(bf, hh)| + |OneSided(hh, bf)|
    ensures Moved(bf, hh) <= bf.Keys + hh.Keys && Moved(bf, hh) !! bf.Keys * hh.Keys
  {
    OneSidedDisjoint(bf, hh);
  }

  lemma SizeMinus<T>(a: set<T>, b: set<T>)
    requires b <= a
    ensures |a - b| == |a| - |b|
  {
    assert a == (a - b) + b;
  }

  /** The reported count is exactly what the union loses under STRIP, what the intersection gains
      under MATERIALIZE, and zero under PASSTHROUGH; the other of the two never changes. */
  lemma MovedIsTheChange(bf: Index, hh: Index, policy: LoopbackPolicy)
    ensures var r := Reconciled(bf, hh, policy);
            && |r.bf.Keys + r.hh.Keys| == |bf.Keys + hh.Keys| - (if policy == STRIP then r.moved else 0)
            && |r.bf.Keys * r.hh.Keys| == |bf.Keys * hh.Keys| + (if policy == MATERIALIZE then r.moved else 0)
            && (policy == PASSTHROUGH ==> r.bf == bf && r.hh == hh && r.moved == 0)
  {
    MovedSize(bf, hh);
    match policy
    case STRIP =>
      StripKeys(bf, hh);
      SizeMinus(bf.Keys + hh.Keys, Moved(bf, hh));
    case MATERIALIZE =>
      MaterializeKeys(bf, hh);
    case PASSTHROUGH =>
  }

  /** No one-sided loopback-like row survives STRIP or MATERIALIZE. */
  lemma NoOneSidedSurvivor(bf: Index, hh: Index, policy: LoopbackPolicy)
    requires policy != PASSTHROUGH
    ensures var r := Reconciled(bf, hh, policy);
            OneSided(r.bf, r.hh) == {} && OneSided(r.hh, r.bf) == {}
  {
    var r := Reconciled(bf, hh, policy);
    forall k ensures k !in OneSided(r.bf, r.hh) && k !in OneSided(r.hh, r.bf) {
      if k in bf && k !in hh {
        assert k in OneSided(bf, hh) <==> LooksLikeLoopbackHost(bf[k]);
      }
      if k in hh && k !in bf {
        assert k in OneSided(hh, bf) <==> LooksLikeLoopbackHost(hh[k]);
      }
    }
  }

  /** Reconciling a second time moves nothing, whatever the policy. */
  lemma ReconcileTwice(bf: Index, hh: Index, policy: LoopbackPolicy)
    ensures var r := Reconciled(bf, hh, policy);
            Reconciled(r.bf, r.hh, policy) == Reconciliation(r.bf, r.hh, 0)
  {
    var r := Reconciled(bf, hh, policy);
    if policy != PASSTHROUGH {
      NoOneSidedSurvivor(bf, hh, policy);
      NothingToMove(r.bf, r.hh, policy);
    }
  }

  lemma NothingToMove(x: Index, y: Index, policy: LoopbackPolicy)
    requires OneSided(x, y) == {} && OneSided(y, x) == {}
    ensures Reconciled(x, y, policy) == Reconciliation(x, y, 0)
  {
    assert OneSided(x, y) + OneSided(y, x) == {};
    assert Without(x, {}) == x && Without(y, {}) == y;
    assert Restrict(x, {}) == map[] && Restrict(y, {}) == map[];
    assert x + map[] == x && y + map[] == y;
  }

  // ---- presence ---------------------------------------------------------

  lemma FractionGrows(both: nat, union: nat, moved: nat)
    requires both + moved <= union
    ensures SafeDiv(both, union - moved) <= SafeDiv(both + moved, union)
  {
    if union == moved {
      assert SafeDiv(both + moved, union) == 1.0;
    } else {
      FractionRises(both as real, (union - moved) as real, (both + moved) as real, union as real, moved as real);
    }
  }

  lemma StripPresence(bf: Index, hh: Index)
    ensures var r := Reconciled(bf, hh, STRIP);
            Jaccard(r.bf, r.hh) == SafeDiv(|bf.Keys * hh.Keys|, |bf.Keys + hh.Keys - Moved(bf, hh)|)
  {
    StripKeys(bf, hh);
  }

  lemma MaterializePresence(bf: Index, hh: Index)
    ensures var r := Reconciled(bf, hh, MATERIALIZE);
            Jaccard(r.bf, r.hh) == SafeDiv(|bf.Keys * hh.Keys + Moved(bf, hh)|, |bf.Keys + hh.Keys|)
  {
    MaterializeKeys(bf, hh);
  }

  lemma FractionOrderSets(both: set<RouteKey>, union: set<RouteKey>, moved: set<RouteKey>)
    requires both <= union && moved <= union && both !! moved
    ensures SafeDiv(|both|, |union|) <= SafeDiv(|both|, |union - moved|) <= SafeDiv(|both + moved|, |union|)
  {
    hide SafeDiv;
    SizeMinus(union, moved);
    SubsetSize(both + moved, union);
    assert |both + moved| == |both| + |moved|;
    SafeDivAntitone(|both|, |union - moved|, |union|);
    FractionGrows(|both|, |union|, |moved|);
  }

  /** On one pair of indexes the three policies are ordered by the presence they report. */
  lemma PresenceOrder(bf: Index, hh: Index)
    ensures var p, s, m := Reconciled(bf, hh, PASSTHROUGH), Reconciled(bf, hh, STRIP), Reconciled(bf, hh, MATERIALIZE);
            Jaccard(p.bf, p.hh) <= Jaccard(s.bf, s.hh) <= Jaccard(m.bf, m.hh)
  {
    hide SafeDiv, OneSided, Moved;
    MovedSize(bf, hh);
    FractionOrderSets(bf.Keys * hh.Keys, bf.Keys + hh.Keys, Moved(bf, hh));
    StripPresence(bf, hh);
    MaterializePresence(bf, hh);
  }

  // ---- agreement --------------------------------------------------------

  /** STRIP leaves every agreement numerator and denominator as it was. */
  lemma StripKeepsAgreement(bf: Index, hh: Index, rel: (Route, Route) -> bool)
    ensures var r := Reconciled(bf, hh, STRIP);
            Agreeing(r.bf, r.hh, rel) == Agreeing(bf, hh, rel)
  {
  }

  lemma StripKeepsRates(bf: Index, hh: Index)
    ensures var r := Reconciled(bf, hh, STRIP);
            var before, after := PairwiseOf(bf, hh), PairwiseOf(r.bf, r.hh);
            && after.both == before.both && after.nextHop == before.nextHop
            && after.protocol == before.protocol && after.bgpAttr == before.bgpAttr
  {
    StripKeys(bf, hh);
    StripKeepsAgreement(bf, hh, NextHopsAgree);
    StripKeepsAgreement(bf, hh, SameProtocol);
    StripKeepsAgreement(bf, hh, BothBgp);
    StripKeepsAgreement(bf, hh, BgpAgree);
  }

  lemma MirroredAgree(bf: Index, hh: Index, rel: (Route, Route) -> bool)
    requires forall r :: rel(r, r)
    ensures Agreeing(Reconciled(bf, hh, MATERIALIZE).bf, Reconciled(bf, hh, MATERIALIZE).hh, rel)
         == Agreeing(bf, hh, rel) + Moved(bf, hh)
    ensures Agreeing(bf, hh, rel) !! Moved(bf, hh)
  {
    hide LooksLikeLoopbackHost;
    var a, b := OneSided(bf, hh), OneSided(hh, bf);
    OneSidedKeys(bf, hh);
    OneSidedKeys(hh, bf);
    MirroredAgreeing(bf, hh, a, b, rel);
    assert (set k | k in a && rel(bf[k], bf[k])) == a && (set k | k in b && rel(hh[k], hh[k])) == b;
  }

  /** Mirrored rows agree with themselves under a reflexive relation. */
  lemma MaterializeAddsReflexive(bf: Index, hh: Index, rel: (Route, Route) -> bool)
    requires forall r :: rel(r, r)
    ensures var r := Reconciled(bf, hh, MATERIALIZE);
            && Agreeing(r.bf, r.hh, rel) == Agreeing(bf, hh, rel) + Moved(bf, hh)
            && |Agreeing(r.bf, r.hh, rel)| == |Agreeing(bf, hh, rel)| + r.moved
  {
    hide Agreeing, OneSided, Moved;
    MirroredAgree(bf, hh, rel);
    MovedSize(bf, hh);
  }

  /** No mirrored row is BGP. */
  lemma MaterializeKeepsBgp(bf: Index, hh: Index)
    ensures var r := Reconciled(bf, hh, MATERIALIZE);
            && Agreeing(r.bf, r.hh, BothBgp) == Agreeing(bf, hh, BothBgp)
            && Agreeing(r.bf, r.hh, BgpAgree) == Agreeing(bf, hh, BgpAgree)
  {
  }

  lemma GrownRate(num: nat, denom: nat, moved: nat)
    requires num <= denom
    ensures SafeDiv(num, denom) <= SafeDiv(num + moved, denom + moved)
  {
    if denom > 0 {
      FractionRises(num as real, denom as real, (num + moved) as real, (denom + moved) as real, moved as real);
    }
  }

  /** Under MATERIALIZE numerators and denominators of the next-hop and protocol rates grow by the
      moved count, so these rates never fall, and the BGP rate stays. */
  lemma MaterializeRates(bf: Index, hh: Index)
    ensures var r := Reconciled(bf, hh, MATERIALIZE);
            var before, after := PairwiseOf(bf, hh), PairwiseOf(r.bf, r.hh);
            && after.both == before.both + r.moved
            && |Agreeing(r.bf, r.hh, NextHopsAgree)| == |Agreeing(bf, hh, NextHopsAgree)| + r.moved
            && |Agreeing(r.bf, r.hh, SameProtocol)| == |Agreeing(bf, hh, SameProtocol)| + r.moved
            && after.nextHop >= before.nextHop && after.protocol >= before.protocol
            && after.bgpAttr == before.bgpAttr
  {
    var r := Reconciled(bf, hh, MATERIALIZE);
    MovedIsTheChange(bf, hh, MATERIALIZE);
    forall route ensures NextHopsAgree(route, route) {
      NextHopsAgreeEquivalence(route, route, route);
    }
    MaterializeGrows(bf, hh, NextHopsAgree);
    MaterializeGrows(bf, hh, SameProtocol);
    MaterializeKeepsBgp(bf, hh);
  }

  lemma AgreeingSize(x: Index, y: Index, rel: (Route, Route) -> bool)
    ensures |Agreeing(x, y, rel)| <= |x.Keys * y.Keys|
  {
    SubsetSize(Agreeing(x, y, rel), x.Keys * y.Keys);
  }

  lemma MaterializeGrows(bf: Index, hh: Index, rel: (Route, Route) -> bool)
    requires forall r :: rel(r, r)
    ensures var r := Reconciled(bf, hh, MATERIALIZE);
            && |Agreeing(r.bf, r.hh, rel)| == |Agreeing(bf, hh, rel)| + r.moved
            && SafeDiv(|Agreeing(r.bf, r.hh, rel)|, |r.bf.Keys * r.hh.Keys|)
               >= SafeDiv(|Agreeing(bf, hh, rel)|, |bf.Keys * hh.Keys|)
  {
    hide SafeDiv, Agreeing, Reconciled;
    var r := Reconciled(bf, hh, MATERIALIZE);
    var num, denom := |Agreeing(bf, hh, rel)|, |bf.Keys * hh.Keys|;
    assert |Agreeing(r.bf, r.hh, rel)| == num + r.moved by {
      MaterializeAddsReflexive(bf, hh, rel);
    }
    assert |r.bf.Keys * r.hh.Keys| == denom + r.moved by {
      MovedIsTheChange(bf, hh, MATERIALIZE);
    }
    AgreeingSize(bf, hh, rel);
    GrownRate(num, denom, r.moved);
  }

  /** Applied after the STRIP index, the reconciler moves exactly the one-sided OSPF and IS-IS rows for
      single hosts. */
  lemma StripMovesOnlyIgp(bfFibs: seq<NodeFib>, hhFibs: seq<NodeFib>, k: RouteKey)
    ensures
      var bf, hh := IndexOf(bfFibs, STRIP), IndexOf(hhFibs, STRIP);
      k in Moved(bf, hh) <==>
      && (k in bf) != (k in hh) && EndsWith(k.prefix, "/32")
      && var r := if k in bf then bf[k] else hh[k];
         r.protocol == Ospf || r.protocol == Isis
  {
    hide IndexOf;
    var bf, hh := IndexOf(bfFibs, STRIP), IndexOf(hhFibs, STRIP);
    if k in bf {
      StripLeavesNoLoopbackHost(bfFibs, k);
    }
    if k in hh {
      StripLeavesNoLoopbackHost(hhFibs, k);
    }
  }

  // ---- the sim-only computation -----------------------------------------

  datatype SimOnlyAgreement = SimOnlyAgreement(
    batfishRoutes: nat, hammerheadRoutes: nat,
    unionKeys: nat, bothSidesKeys: nat,
    nextHopAgreement: real, protocolAgreement: real, bgpAttrAgreement: real,
    loopbackReconciledCount: nat,
    presenceStrict: real, unionKeysStrict: nat, bothSidesKeysStrict: nat)
  {
    function Coverage(): real {
      SafeDiv(bothSidesKeys, unionKeys)
    }
  }

  lemma FirstKeys(keys: seq<RouteKey>)
    ensures KeysOf(keys[..0]) == {}
  {
  }

  lemma NextKey(keys: seq<RouteKey>, i: nat)
    requires Increasing(keys) && i < |keys|
    ensures keys[i] !in KeysOf(keys[..i])
    ensures KeysOf(keys[..i + 1]) == KeysOf(keys[..i]) + {keys[i]}
  {
    assert keys[..i + 1] == keys[..i] + [keys[i]];
  }

  /** The counting loop over the sorted key union of two reconciled indexes. */
  method CountAgreement(bf: Index, hh: Index) returns (nhAgree: nat, protoAgree: nat, bgpTotal: nat, bgpAgree: nat)
    ensures nhAgree == |Agreeing(bf, hh, NextHopsAgree)| && protoAgree == |Agreeing(bf, hh, SameProtocol)|
    ensures bgpTotal == |Agreeing(bf, hh, BothBgp)| && bgpAgree == |Agreeing(bf, hh, BgpAgree)|
  {
    hide NextHopsAgree, Agreeing, AgreeingIn, KeysOf, Increasing;
    nhAgree, protoAgree, bgpTotal, bgpAgree := 0, 0, 0, 0;
    var keys := SortKeys(bf.Keys + hh.Keys);
    ghost var done: set<RouteKey> := {};
    NoneAgreeing(bf, hh);
    assert KeysOf(keys[..0]) == {} by {
      FirstKeys(keys);
    }
    for i := 0 to |keys|
      invariant done == KeysOf(keys[..i])
      invariant nhAgree == |AgreeingIn(done, bf, hh, NextHopsAgree)|
      invariant protoAgree == |AgreeingIn(done, bf, hh, SameProtocol)|
      invariant bgpTotal == |AgreeingIn(done, bf, hh, BothBgp)|
      invariant bgpAgree == |AgreeingIn(done, bf, hh, BgpAgree)|
    {
      var key := keys[i];
      NextKey(keys, i);
      AgreeingStep(done, key, bf, hh, NextHopsAgree);
      AgreeingStep(done, key, bf, hh, SameProtocol);
      AgreeingStep(done, key, bf, hh, BothBgp);
      AgreeingStep(done, key, bf, hh, BgpAgree);
      done := done + {key};
      AgreeingAt(key, bf, hh);
      if key !in bf || key !in hh {
        continue;
      }
      if NextHopsAgree(bf[key], hh[key]) {
        nhAgree := nhAgree + 1;
      }
      if bf[key].protocol == hh[key].protocol {
        protoAgree := protoAgree + 1;
      }
      if BothBgp(bf[key], hh[key]) {
        bgpTotal := bgpTotal + 1;
        if BgpAttrsEqual(bf[key], hh[key]) {
          bgpAgree := bgpAgree + 1;
        }
      }
    }
    assert keys[..|keys|] == keys;
    AllAgreeing(done, bf, hh);
  }

  /** Head-to-head agreement of two sets of FIBs: the reconciled numbers are those of the pairwise
      computation on the reconciled indexes, and the strict presence is the unreconciled overlap. */
  method ComputeSimOnlyAgreement(batfish: seq<NodeFib>, hammerhead: seq<NodeFib>, policy: LoopbackPolicy)
    returns (a: SimOnlyAgreement)
    ensures var bf, hh := IndexOf(batfish, policy), IndexOf(hammerhead, policy);
            var r := Reconciled(bf, hh, policy);
            var pair := PairwiseOf(r.bf, r.hh);
            && a.batfishRoutes == |r.bf| && a.hammerheadRoutes == |r.hh|
            && a.unionKeys == pair.union && a.bothSidesKeys == pair.both && a.Coverage() == pair.presence
            && a.nextHopAgreement == pair.nextHop && a.protocolAgreement == pair.protocol
            && a.bgpAttrAgreement == pair.bgpAttr
            && a.loopbackReconciledCount == r.moved
            && a.presenceStrict == Jaccard(bf, hh) <= a.Coverage()
            && a.unionKeysStrict == |bf.Keys + hh.Keys| && a.bothSidesKeysStrict == |bf.Keys * hh.Keys|
  {
    hide SafeDiv, IndexOf, Reconciled, Agreeing;
    var bfRaw := IndexRoutes(batfish, policy);
    var hhRaw := IndexRoutes(hammerhead, policy);
    var strictUnion, strictBoth := bfRaw.Keys + hhRaw.Keys, bfRaw.Keys * hhRaw.Keys;
    var strictPresence := SafeDiv(|strictBoth|, |strictUnion|);
    var bf, hh, moved := ReconcileLoopbackHostRoutes(bfRaw, hhRaw, policy);
    PresenceOrder(bfRaw, hhRaw);
    MovedIsTheChange(bfRaw, hhRaw, PASSTHROUGH);
    var unionKeys, bothKeys := bf.Keys + hh.Keys, bf.Keys * hh.Keys;
    var nhAgree, protoAgree, bgpTotal, bgpAgree := CountAgreement(bf, hh);
    a := SimOnlyAgreement(
      |bf|, |hh|, |unionKeys|, |bothKeys|,
      SafeDiv(nhAgree, |bothKeys|), SafeDiv(protoAgree, |bothKeys|), SafeDiv(bgpAgree, bgpTotal),
      moved, strictPresence, |strictUnion|, |strictBoth|);
  }
}

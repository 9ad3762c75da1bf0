/** What the diff does not depend on: the order of next hops, of routes and of FIBs. */
module Invariance {
  import opened Text
  import opened Ordering
  import opened Fib
  import opened FibIndex
  import opened Diff

  // ---- order of next hops -----------------------------------------------

  /** Equal up to the order of next hops. */
  ghost predicate Similar(a: Route, b: Route) {
    a == b.(nextHops := a.nextHops) && multiset(a.nextHops) == multiset(b.nextHops)
  }

  ghost predicate SimilarFibs(xs: seq<NodeFib>, ys: seq<NodeFib>) {
    && |xs| == |ys|
    && forall i :: 0 <= i < |xs| ==>
         && xs[i] == ys[i].(routes := xs[i].routes)
         && SimilarRoutes(xs[i].routes, ys[i].routes)
  }

  ghost predicate SimilarRoutes(rs: seq<Route>, ss: seq<Route>) {
    |rs| == |ss| && forall j :: 0 <= j < |rs| ==> Similar(rs[j], ss[j])
  }

  ghost predicate SimilarIndexes(x: Index, y: Index) {
    x.Keys == y.Keys && forall k :: k in x ==> Similar(x[k], y[k])
  }

  lemma SimilarMembers(a: Route, b: Route)
    requires Similar(a, b)
    ensures NextHopSet(a) == NextHopSet(b) && IsLoopbackHost(a) == IsLoopbackHost(b)
    ensures Similar(CanonicalizeRoute(a), CanonicalizeRoute(b))
  {
    forall nh ensures nh in a.nextHops <==> nh in b.nextHops {
      assert nh in a.nextHops <==> nh in multiset(a.nextHops);
      assert nh in b.nextHops <==> nh in multiset(b.nextHops);
    }
    CanonicalRoute(a);
    CanonicalRoute(b);
  }

  lemma {:induction false} SimilarBest(policy: LoopbackPolicy, prefix: string, rs: seq<Route>, ss: seq<Route>)
    requires SimilarRoutes(rs, ss)
    ensures Best(policy, prefix, rs) == Best(policy, prefix, ss)
  {
    hide IsLoopbackHost, StringLeq;
    if rs == [] {
    } else {
      assert SimilarRoutes(rs[1..], ss[1..]) by {
        assert forall j :: 0 <= j < |rs[1..]| ==> rs[1..][j] == rs[j + 1] && ss[1..][j] == ss[j + 1];
      }
      SimilarBest(policy, prefix, rs[1..], ss[1..]);
      SimilarMembers(rs[0], ss[0]);
      BestStep(policy, prefix, rs);
      BestStep(policy, prefix, ss);
      var best := Best(policy, prefix, rs[1..]);
      if best.Some? {
        assert Similar(rs[best.value + 1], ss[best.value + 1]);
      }
    }
  }

  lemma {:induction false} SimilarFind(xs: seq<NodeFib>, ys: seq<NodeFib>, policy: LoopbackPolicy, key: RouteKey)
    requires SimilarFibs(xs, ys)
    ensures Find(xs, policy, key).Some? == Find(ys, policy, key).Some?
    ensures Find(xs, policy, key).Some? ==> Similar(Find(xs, policy, key).value, Find(ys, policy, key).value)
  {
    hide Best, CanonicalizeRoute;
    if xs == [] {
    } else {
      var n := |xs| - 1;
      SimilarFind(xs[..n], ys[..n], policy, key);
      SimilarBest(policy, key.prefix, xs[n].routes, ys[n].routes);
      var best := Best(policy, key.prefix, xs[n].routes);
      if best.Some? {
        SimilarMembers(xs[n].routes[best.value], ys[n].routes[best.value]);
      }
    }
  }

  lemma NextHopOrder(xs: seq<NodeFib>, ys: seq<NodeFib>, policy: LoopbackPolicy)
    requires SimilarFibs(xs, ys)
    ensures SimilarIndexes(IndexOf(xs, policy), IndexOf(ys, policy))
  {
    forall key ensures (key in IndexOf(xs, policy) <==> key in IndexOf(ys, policy))
                       && (key in IndexOf(xs, policy) ==> Similar(IndexOf(xs, policy)[key], IndexOf(ys, policy)[key])) {
      IndexIsFind(xs, policy, key);
      IndexIsFind(ys, policy, key);
      SimilarFind(xs, ys, policy, key);
    }
  }

  /** A record up to the order in which next hops are listed. */
  function Bits(r: DiffRecord): DiffRecord {
    r.(vendorNextHops := [], batfish := r.batfish.(nextHops := []), hammerhead := r.hammerhead.(nextHops := []))
  }

  lemma SimilarSides(v1: Option<Route>, s1: Option<Route>, v2: Option<Route>, s2: Option<Route>)
    requires v1.Some? == v2.Some? && (v1.Some? ==> Similar(v1.value, v2.value))
    requires s1.Some? == s2.Some? && (s1.Some? ==> Similar(s1.value, s2.value))
    ensures BuildSide(v1, s1).(nextHops := []) == BuildSide(v2, s2).(nextHops := [])
  {
    if v1.Some? { SimilarMembers(v1.value, v2.value); }
    if s1.Some? { SimilarMembers(s1.value, s2.value); }
  }

  lemma SimilarRecord(v1: Index, b1: Index, h1: Index, v2: Index, b2: Index, h2: Index, k: RouteKey)
    requires SimilarIndexes(v1, v2) && SimilarIndexes(b1, b2) && SimilarIndexes(h1, h2)
    requires k in UnionKeys(v1, b1, h1)
    ensures Bits(RecordAt(v1, b1, h1, k)) == Bits(RecordAt(v2, b2, h2, k))
  {
    SimilarSides(Get(v1, k), Get(b1, k), Get(v2, k), Get(b2, k));
    SimilarSides(Get(v1, k), Get(h1, k), Get(v2, k), Get(h2, k));
  }

  /** Reordering next hops changes no record key, presence, protocol or match bit of the diff. */
  lemma NextHopOrderInvariance(w1: Workspace, w2: Workspace, policy: LoopbackPolicy,
                               xs: seq<DiffRecord>, ys: seq<DiffRecord>)
    requires SimilarFibs(w1.vendor, w2.vendor) && SimilarFibs(w1.batfish, w2.batfish)
    requires SimilarFibs(w1.hammerhead, w2.hammerhead)
    requires IsDiff(IndexOf(w1.vendor, policy), IndexOf(w1.batfish, policy), IndexOf(w1.hammerhead, policy), xs)
    requires IsDiff(IndexOf(w2.vendor, policy), IndexOf(w2.batfish, policy), IndexOf(w2.hammerhead, policy), ys)
    ensures |xs| == |ys| && forall i :: 0 <= i < |xs| ==> Bits(xs[i]) == Bits(ys[i])
  {
    NextHopOrder(w1.vendor, w2.vendor, policy);
    NextHopOrder(w1.batfish, w2.batfish, policy);
    NextHopOrder(w1.hammerhead, w2.hammerhead, policy);
    SimilarDiffs(IndexOf(w1.vendor, policy), IndexOf(w1.batfish, policy), IndexOf(w1.hammerhead, policy),
                 IndexOf(w2.vendor, policy), IndexOf(w2.batfish, policy), IndexOf(w2.hammerhead, policy), xs, ys);
  }

  lemma SimilarDiffs(v1: Index, b1: Index, h1: Index, v2: Index, b2: Index, h2: Index,
                     xs: seq<DiffRecord>, ys: seq<DiffRecord>)
    requires SimilarIndexes(v1, v2) && SimilarIndexes(b1, b2) && SimilarIndexes(h1, h2)
    requires IsDiff(v1, b1, h1, xs) && IsDiff(v2, b2, h2, ys)
    ensures |xs| == |ys| && forall i :: 0 <= i < |xs| ==> Bits(xs[i]) == Bits(ys[i])
  {
    IncreasingUnique(RecordKeys(xs), RecordKeys(ys));
    assert |xs| == |RecordKeys(xs)| == |ys|;
    forall i | 0 <= i < |xs| ensures Bits(xs[i]) == Bits(ys[i]) {
      assert xs[i].key == RecordKeys(xs)[i] == RecordKeys(ys)[i] == ys[i].key;
      assert Faithful(v1, b1, h1, xs[i]) && Faithful(v2, b2, h2, ys[i]);
      SimilarRecord(v1, b1, h1, v2, b2, h2, xs[i].key);
    }
  }

  // ---- order of routes --------------------------------------------------

  ghost predicate DistinctRoutes(rs: seq<Route>) {
    forall i, j :: 0 <= i < j < |rs| ==> rs[i].prefix != rs[j].prefix || rs[i].protocol != rs[j].protocol
  }

  /** The same FIBs with routes reordered, no FIB repeating a (prefix, protocol) pair. */
  ghost predicate ReorderedRoutes(xs: seq<NodeFib>, ys: seq<NodeFib>) {
    && |xs| == |ys|
    && forall i :: 0 <= i < |xs| ==>
         && xs[i] == ys[i].(routes := xs[i].routes)
         && multiset(xs[i].routes) == multiset(ys[i].routes)
         && DistinctRoutes(xs[i].routes)
  }

  lemma TwoWinners(policy: LoopbackPolicy, prefix: string, rs: seq<Route>, ss: seq<Route>, i: nat, j: nat)
    requires Wins(rs, policy, prefix, i) && Wins(ss, policy, prefix, j)
    requires rs[i] in ss && ss[j] in rs && DistinctRoutes(rs)
    ensures rs[i] == ss[j]
  {
    var i' :| 0 <= i' < |rs| && rs[i'] == ss[j];
    var j' :| 0 <= j' < |ss| && ss[j'] == rs[i];
    var a, b := rs[i].protocol.Label(), ss[j].protocol.Label();
    assert StringLeq(a, b) && StringLeq(b, a);
    assert rs[i].protocol == ss[j].protocol by {
      LabelOrder();
    }
  }

  lemma WinnerIsRoute(policy: LoopbackPolicy, prefix: string, rs: seq<Route>, ss: seq<Route>)
    requires multiset(rs) == multiset(ss) && DistinctRoutes(rs)
    ensures Best(policy, prefix, rs).Some? == Best(policy, prefix, ss).Some?
    ensures Best(policy, prefix, rs).Some? ==> rs[Best(policy, prefix, rs).value] == ss[Best(policy, prefix, ss).value]
  {
    BestWins(policy, prefix, rs);
    BestWins(policy, prefix, ss);
    forall r ensures r in rs <==> r in ss {
      assert r in rs <==> r in multiset(rs);
      assert r in ss <==> r in multiset(ss);
    }
    if Best(policy, prefix, rs).Some? && Best(policy, prefix, ss).Some? {
      TwoWinners(policy, prefix, rs, ss, Best(policy, prefix, rs).value, Best(policy, prefix, ss).value);
    }
  }

  lemma {:induction false} ReorderedFind(xs: seq<NodeFib>, ys: seq<NodeFib>, policy: LoopbackPolicy, key: RouteKey)
    requires ReorderedRoutes(xs, ys)
    ensures Find(xs, policy, key) == Find(ys, policy, key)
  {
    if xs == [] {
    } else {
      var n := |xs| - 1;
      ReorderedFind(xs[..n], ys[..n], policy, key);
      WinnerIsRoute(policy, key.prefix, xs[n].routes, ys[n].routes);
    }
  }

  /** Reordering routes with distinct (prefix, protocol) does not change the index. */
  lemma RouteOrderInvariance(xs: seq<NodeFib>, ys: seq<NodeFib>, policy: LoopbackPolicy)
    requires ReorderedRoutes(xs, ys)
    ensures IndexOf(xs, policy) == IndexOf(ys, policy)
  {
    forall key ensures Get(IndexOf(xs, policy), key) == Get(IndexOf(ys, policy), key) {
      IndexIsFind(xs, policy, key);
      IndexIsFind(ys, policy, key);
      ReorderedFind(xs, ys, policy, key);
    }
    SameGet(IndexOf(xs, policy), IndexOf(ys, policy));
  }

  lemma SameGet(x: Index, y: Index)
    requires forall key :: Get(x, key) == Get(y, key)
    ensures x == y
  {
    forall key ensures (key in x <==> key in y) && (key in x ==> x[key] == y[key]) {
      assert Get(x, key) == Get(y, key);
    }
  }

  // ---- order of FIBs ----------------------------------------------------

  /** No two FIBs speak for the same node and canonical VRF. */
  ghost predicate DistinctFibs(fibs: seq<NodeFib>) {
    forall i, j :: 0 <= i < j < |fibs| ==>
      fibs[i].node != fibs[j].node || CanonicalizeVrf(fibs[i].vrf) != CanonicalizeVrf(fibs[j].vrf)
  }

  lemma FibMoves(xs: seq<NodeFib>, ys: seq<NodeFib>, policy: LoopbackPolicy, key: RouteKey)
    requires multiset(xs) == multiset(ys) && DistinctFibs(xs)
    ensures Find(xs, policy, key) == Find(ys, policy, key)
  {
    forall fib ensures fib in xs <==> fib in ys {
      assert fib in xs <==> fib in multiset(xs);
      assert fib in ys <==> fib in multiset(ys);
    }
    var f, i := FindDecides(xs, policy, key);
    var g, j := FindDecides(ys, policy, key);
    if Find(xs, policy, key).Some? {
      assert xs[f] in ys;
    }
    if Find(ys, policy, key).Some? {
      assert ys[g] in xs;
      var e :| 0 <= e < |xs| && xs[e] == ys[g];
      assert e == f;
      WinnerUnique(xs[f].routes, policy, key.prefix, i, j);
    }
  }

  /** Reordering FIBs with distinct (node, canonical VRF) does not change the index. */
  lemma FibOrderInvariance(xs: seq<NodeFib>, ys: seq<NodeFib>, policy: LoopbackPolicy)
    requires multiset(xs) == multiset(ys) && DistinctFibs(xs)
    ensures IndexOf(xs, policy) == IndexOf(ys, policy)
  {
    forall key ensures Get(IndexOf(xs, policy), key) == Get(IndexOf(ys, policy), key) {
      IndexIsFind(xs, policy, key);
      IndexIsFind(ys, policy, key);
      FibMoves(xs, ys, policy, key);
    }
    SameGet(IndexOf(xs, policy), IndexOf(ys, policy));
  }
}

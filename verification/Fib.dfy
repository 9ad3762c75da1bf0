/** The canonical FIB schema and its canonicalizer (harness/extract/fib.py). */
module Fib {
  import opened Ordering
  import opened Text

  datatype Protocol = Bgp | Ospf | Isis | Static | Connected | Local | Rip {
    function Label(): string {
      match this
      case Bgp => "bgp"
      case Ospf => "ospf"
      case Isis => "isis"
      case Static => "static"
      case Connected => "connected"
      case Local => "local"
      case Rip => "rip"
    }
  }

  datatype NextHop = NextHop(ip: Option<string>, iface: Option<string>)

  datatype Route = Route(
    prefix: string,
    protocol: Protocol,
    nextHops: seq<NextHop>,
    adminDistance: Option<int>,
    metric: Option<int>,
    asPath: Option<seq<int>>,
    localPref: Option<int>,
    med: Option<int>,
    communities: Option<seq<string>>)

  datatype Source = Vendor | Batfish | Hammerhead

  datatype NodeFib = NodeFib(node: string, vrf: string, source: Source, routes: seq<Route>)

  datatype LoopbackPolicy = STRIP | MATERIALIZE | PASSTHROUGH {
    predicate StripLoopbackHost() {
      STRIP?
    }
  }

  // ---- VRF names --------------------------------------------------------

  function CanonicalizeVrf(vrf: string): string {
    if Strip(Lower(vrf)) in {"", "global", "master"} then "default" else vrf
  }

  lemma CanonicalizeVrfIdempotent(vrf: string)
    ensures CanonicalizeVrf(CanonicalizeVrf(vrf)) == CanonicalizeVrf(vrf)
  {
    assert Lower("default") == "default";
    assert RStrip("default") == "default";
    assert Strip(Lower("default"))[0] == 'd';
    assert Strip(Lower("default")) == "default";
  }

  // ---- next hops and routes ---------------------------------------------

  function NextHopKey(n: NextHop): seq<string> {
    [n.ip.GetOr(""), n.iface.GetOr("")]
  }

  predicate NextHopLeq(a: NextHop, b: NextHop) {
    KeyLeq(NextHopKey(a), NextHopKey(b))
  }

  predicate RouteLeq(a: Route, b: Route) {
    KeyLeq([a.prefix, a.protocol.Label()], [b.prefix, b.protocol.Label()])
  }

  lemma RouteOrders()
    ensures TotalPreorder(NextHopLeq) && TotalPreorder(RouteLeq)
  {
    KeyOrder();
    assert forall x, y :: NextHopLeq(x, y) || NextHopLeq(y, x) by {
      assert forall x: NextHop, y: NextHop ::
        KeyLeq(NextHopKey(x), NextHopKey(y)) || KeyLeq(NextHopKey(y), NextHopKey(x));
    }
  }

  function CanonicalizeNextHops(nhs: seq<NextHop>): seq<NextHop> {
    StableSort(NextHopLeq, nhs)
  }

  function CanonicalizeRoute(r: Route): Route {
    r.(nextHops := CanonicalizeNextHops(r.nextHops))
  }

  function CanonicalizeRoutes(rs: seq<Route>): (cs: seq<Route>)
    ensures |cs| == |rs| && forall i :: 0 <= i < |rs| ==> cs[i] == CanonicalizeRoute(rs[i])
  {
    seq(|rs|, i requires 0 <= i < |rs| => CanonicalizeRoute(rs[i]))
  }

  /** The interface is a loopback by name.  `"loopback"` itself starts with `"lo"`. */
  predicate IsLoopbackInterface(nh: NextHop) {
    nh.iface.Some? && nh.iface.value != "" &&
    (StartsWith(Lower(nh.iface.value), "lo") || StartsWith(Lower(nh.iface.value), "loopback"))
  }

  predicate IsLoopbackHost(r: Route) {
    && (r.protocol == Connected || r.protocol == Local)
    && EndsWith(r.prefix, "/32")
    && exists nh :: nh in r.nextHops && IsLoopbackInterface(nh)
  }

  predicate Kept(policy: LoopbackPolicy, r: Route) {
    !(policy.StripLoopbackHost() && IsLoopbackHost(r))
  }

  function KeepRoutes(policy: LoopbackPolicy, rs: seq<Route>): seq<Route> {
    if rs == [] then []
    else (if Kept(policy, rs[0]) then [rs[0]] else []) + KeepRoutes(policy, rs[1..])
  }

  function CanonicalizeNodeFib(fib: NodeFib, policy: LoopbackPolicy): NodeFib {
    fib.(vrf := CanonicalizeVrf(fib.vrf),
         routes := StableSort(RouteLeq, KeepRoutes(policy, CanonicalizeRoutes(fib.routes))))
  }

  // ---- what canonicalization keeps --------------------------------------

  lemma CanonicalRoute(r: Route)
    ensures multiset(CanonicalizeRoute(r).nextHops) == multiset(r.nextHops)
    ensures forall nh :: nh in CanonicalizeRoute(r).nextHops <==> nh in r.nextHops
    ensures CanonicalizeRoute(CanonicalizeRoute(r)) == CanonicalizeRoute(r)
    ensures IsLoopbackHost(CanonicalizeRoute(r)) == IsLoopbackHost(r)
  {
    RouteOrders();
    StableSortSorted(NextHopLeq, r.nextHops);
    StableSortIdempotent(NextHopLeq, CanonicalizeRoute(r).nextHops);
    forall nh ensures nh in CanonicalizeRoute(r).nextHops <==> nh in r.nextHops {
      assert nh in r.nextHops <==> nh in multiset(r.nextHops);
      assert nh in CanonicalizeRoute(r).nextHops <==> nh in multiset(CanonicalizeRoute(r).nextHops);
    }
  }

  lemma {:induction false} KeepRoutesMember(policy: LoopbackPolicy, rs: seq<Route>, r: Route)
    ensures r in KeepRoutes(policy, rs) <==> r in rs && Kept(policy, r)
  {
    if rs == [] {
    } else {
      KeepRoutesMember(policy, rs[1..], r);
      assert rs == [rs[0]] + rs[1..];
    }
  }

  lemma {:induction false} KeepRoutesAll(policy: LoopbackPolicy, rs: seq<Route>)
    requires forall r :: r in rs ==> Kept(policy, r)
    ensures KeepRoutes(policy, rs) == rs
  {
    if rs == [] {
    } else {
      KeepRoutesAll(policy, rs[1..]);
    }
  }

  /** Every route of a canonical FIB is canonical, kept by the policy and in key order. */
  lemma CanonicalFib(fib: NodeFib, policy: LoopbackPolicy)
    ensures var rs := CanonicalizeNodeFib(fib, policy).routes;
            && Sorted(RouteLeq, rs)
            && forall r :: r in rs ==> CanonicalizeRoute(r) == r && Kept(policy, r)
  {
    var canonical := CanonicalizeRoutes(fib.routes);
    var kept := KeepRoutes(policy, canonical);
    var rs := StableSort(RouteLeq, kept);
    RouteOrders();
    StableSortSorted(RouteLeq, kept);
    forall r | r in rs ensures CanonicalizeRoute(r) == r && Kept(policy, r) {
      assert r in multiset(rs);
      KeepRoutesMember(policy, canonical, r);
      var i :| 0 <= i < |canonical| && canonical[i] == r;
      CanonicalRoute(fib.routes[i]);
    }
  }

  /** Canonicalization is idempotent, for each policy. */
  lemma CanonicalizeIdempotent(fib: NodeFib, policy: LoopbackPolicy)
    ensures CanonicalizeNodeFib(CanonicalizeNodeFib(fib, policy), policy) == CanonicalizeNodeFib(fib, policy)
  {
    var rs := CanonicalizeNodeFib(fib, policy).routes;
    CanonicalizeVrfIdempotent(fib.vrf);
    CanonicalFib(fib, policy);
    assert CanonicalizeRoutes(rs) == rs;
    KeepRoutesAll(policy, rs);
    RouteOrders();
    StableSortIdempotent(RouteLeq, rs);
  }
}

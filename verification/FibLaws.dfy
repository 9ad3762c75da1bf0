/** What the single decisions of the canonicalizer mean (harness/extract/fib.py). */
module FibLaws {
  import opened Ordering
  import opened Text
  import opened TextLaws
  import opened Fib

  // ---- VRF aliases ------------------------------------------------------

  /** Blank, or one of the two alias words in any case, with blanks around it. */
  ghost predicate IsAlias(vrf: string) {
    exists pre, core, post ::
      && Blank(pre) && Blank(post) && vrf == pre + core + post
      && (core == "" || Spells(core, "global") || Spells(core, "master"))
  }

  lemma AliasIsBare(core: string)
    requires core == "" || Spells(core, "global") || Spells(core, "master")
    ensures Bare(core)
  {
    if core != "" {
      assert |core| == 6;
      assert Spells(core, "global") ==> core[0] in {'g', 'G'} && core[5] in {'l', 'L'};
      assert Spells(core, "master") ==> core[0] in {'m', 'M'} && core[5] in {'r', 'R'};
    }
  }

  /** Exactly the aliases become `default`, and every other name is kept as it is. */
  lemma CanonicalizeVrfMeans(vrf: string)
    ensures CanonicalizeVrf(vrf) == if IsAlias(vrf) then "default" else vrf
  {
    hide IsSpace, Strip, Blank, Bare, Spells;
    StripLower(vrf);
    var t := Strip(vrf);
    LowerSpells(t, "global");
    LowerSpells(t, "master");
    var pre, post := StripParts(vrf);
    if Strip(Lower(vrf)) in {"", "global", "master"} {
      assert t == "" || Spells(t, "global") || Spells(t, "master");
      assert IsAlias(vrf);
    } else if IsAlias(vrf) {
      var p, core, q :| Blank(p) && Blank(q) && vrf == p + core + q
                        && (core == "" || Spells(core, "global") || Spells(core, "master"));
      AliasIsBare(core);
      StripIs(p, core, q);
      assert false;
    }
  }

  // ---- loopback hosts ---------------------------------------------------

  /** The name starts with the letters `lo`, in either case. */
  predicate NamedLo(name: string) {
    |name| >= 2 && name[0] in {'l', 'L'} && name[1] in {'o', 'O'}
  }

  lemma StartsWithLo(name: string)
    ensures StartsWith(Lower(name), "lo") <==> NamedLo(name)
  {
    if |name| >= 2 {
      assert Lower(name)[..2] == [Lower(name)[0], Lower(name)[1]];
    }
  }

  lemma LoopbackStartsWithLo(name: string)
    ensures StartsWith(Lower(name), "loopback") ==> NamedLo(name)
  {
    if StartsWith(Lower(name), "loopback") {
      assert "loopback"[..2] == "lo";
      StartsWithLo(name);
    }
  }

  ghost predicate ForHost(prefix: string) {
    exists address :: prefix == address + "/32"
  }

  lemma ForHostMeans(prefix: string)
    ensures EndsWith(prefix, "/32") <==> ForHost(prefix)
  {
    if EndsWith(prefix, "/32") {
      assert prefix == prefix[..|prefix| - 3] + "/32";
    }
  }

  /** A connected or local route to a single host through an interface named like a loopback. */
  ghost predicate LoopbackRoute(r: Route) {
    && (r.protocol == Connected || r.protocol == Local) && ForHost(r.prefix)
    && exists nh :: nh in r.nextHops && nh.iface.Some? && NamedLo(nh.iface.value)
  }

  lemma LoopbackHostMeans(r: Route)
    ensures IsLoopbackHost(r) <==> LoopbackRoute(r)
  {
    ForHostMeans(r.prefix);
    hide NamedLo, Lower;
    forall nh: NextHop | nh.iface.Some? ensures IsLoopbackInterface(nh) <==> NamedLo(nh.iface.value) {
      StartsWithLo(nh.iface.value);
      LoopbackStartsWithLo(nh.iface.value);
      assert NamedLo(nh.iface.value) ==> nh.iface.value != "" by { NamedIsNotEmpty(nh.iface.value); }
    }
  }

  lemma NamedIsNotEmpty(name: string)
    ensures NamedLo(name) ==> name != ""
  {
  }

  /** A FIB keeps, in canonical form, exactly its routes that STRIP does not drop, under its canonical
      VRF name; only STRIP drops any. */
  lemma CanonicalRoutesMean(fib: NodeFib, policy: LoopbackPolicy, r: Route)
    ensures
      var out := CanonicalizeNodeFib(fib, policy);
      && out.node == fib.node && out.source == fib.source
      && out.vrf == (if IsAlias(fib.vrf) then "default" else fib.vrf)
      && (r in out.routes <==>
          exists raw :: raw in fib.routes && CanonicalizeRoute(raw) == r && !(policy == STRIP && LoopbackRoute(raw)))
  {
    hide CanonicalizeNodeFib, CanonicalizeVrf, IsAlias, Kept, CanonicalizeRoute, IsLoopbackHost, LoopbackRoute;
    SortedMembers(fib, policy, r);
    CanonicalizeVrfMeans(fib.vrf);
    if r in CanonicalizeRoutes(fib.routes) && Kept(policy, r) {
      var i :| 0 <= i < |fib.routes| && CanonicalizeRoutes(fib.routes)[i] == r;
      KeptMeans(policy, fib.routes[i]);
      assert fib.routes[i] in fib.routes;
    }
    if raw :| raw in fib.routes && CanonicalizeRoute(raw) == r && !(policy == STRIP && LoopbackRoute(raw)) {
      var i :| 0 <= i < |fib.routes| && fib.routes[i] == raw;
      KeptMeans(policy, raw);
      assert CanonicalizeRoutes(fib.routes)[i] == r;
    }
  }

  /** A canonical route differs from the raw one in the order of its next hops alone, which is by key. */
  lemma CanonicalRouteMeans(r: Route)
    ensures CanonicalizeRoute(r).(nextHops := r.nextHops) == r
    ensures multiset(CanonicalizeRoute(r).nextHops) == multiset(r.nextHops)
    ensures Sorted(NextHopLeq, CanonicalizeRoute(r).nextHops)
  {
    hide StableSort, NextHopLeq;
    RouteOrders();
    StableSortSorted(NextHopLeq, r.nextHops);
  }

  lemma KeptMeans(policy: LoopbackPolicy, raw: Route)
    ensures Kept(policy, CanonicalizeRoute(raw)) <==> !(policy == STRIP && LoopbackRoute(raw))
  {
    hide CanonicalizeRoute, IsLoopbackHost, LoopbackRoute;
    LoopbackHostMeans(raw);
    CanonicalRoute(raw);
  }

  lemma SortedMembers(fib: NodeFib, policy: LoopbackPolicy, r: Route)
    ensures
      var out := CanonicalizeNodeFib(fib, policy);
      && out.node == fib.node && out.source == fib.source && out.vrf == CanonicalizeVrf(fib.vrf)
      && (r in out.routes <==> r in CanonicalizeRoutes(fib.routes) && Kept(policy, r))
  {
    hide Kept, StableSort, KeepRoutes, RouteLeq, CanonicalizeVrf;
    var canonical, rs := CanonicalizeRoutes(fib.routes), CanonicalizeNodeFib(fib, policy).routes;
    RouteOrders();
    StableSortSorted(RouteLeq, KeepRoutes(policy, canonical));
    KeepRoutesMember(policy, canonical, r);
    assert r in rs <==> r in multiset(rs);
    assert r in KeepRoutes(policy, canonical) <==> r in multiset(KeepRoutes(policy, canonical));
  }

  // ---- orders -----------------------------------------------------------

  /** The protocols by label: of two routes for a prefix the one further down wins the index. */
  function LabelRank(p: Protocol): nat {
    match p
    case Bgp => 0
    case Connected => 1
    case Isis => 2
    case Local => 3
    case Ospf => 4
    case Rip => 5
    case Static => 6
  }

  lemma LabelsInOrder(p: Protocol, q: Protocol)
    ensures StringLeq(p.Label(), q.Label()) <==> LabelRank(p) <= LabelRank(q)
  {
    if p == q {
      StringLeqMeans(p.Label(), q.Label());
    } else {
      assert p.Label()[0] != q.Label()[0];
      assert p.Label()[0] < q.Label()[0] <==> LabelRank(p) < LabelRank(q);
    }
  }

  /** Routes are sorted by prefix first and by protocol label within a prefix. */
  lemma RouteOrderMeans(a: Route, b: Route)
    ensures RouteLeq(a, b) <==>
            if a.prefix == b.prefix then LabelRank(a.protocol) <= LabelRank(b.protocol) else Before(a.prefix, b.prefix)
  {
    hide StringLeq, LabelRank, Before;
    PairLeq(a.prefix, a.protocol.Label(), b.prefix, b.protocol.Label());
    LabelsInOrder(a.protocol, b.protocol);
    StringLeqMeans(a.prefix, b.prefix);
    if a.protocol.Label() == b.protocol.Label() {
      SameLabel(a.protocol, b.protocol);
    }
  }

  lemma SameLabel(p: Protocol, q: Protocol)
    requires p.Label() == q.Label()
    ensures p == q && LabelRank(p) <= LabelRank(q)
  {
    assert p.Label()[0] == q.Label()[0];
  }

  /** Next hops are sorted by address first, an absent one first of all, and then by interface. */
  lemma NextHopOrderMeans(a: NextHop, b: NextHop)
    ensures NextHopLeq(a, b) <==>
            if a.ip.GetOr("") == b.ip.GetOr("") then Before(a.iface.GetOr(""), b.iface.GetOr(""))
            else Before(a.ip.GetOr(""), b.ip.GetOr(""))
  {
    hide StringLeq;
    PairLeq(a.ip.GetOr(""), a.iface.GetOr(""), b.ip.GetOr(""), b.iface.GetOr(""));
    StringLeqMeans(a.ip.GetOr(""), b.ip.GetOr(""));
    StringLeqMeans(a.iface.GetOr(""), b.iface.GetOr(""));
  }
}

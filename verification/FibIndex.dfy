/** The `{(node, vrf, prefix): Route}` index that every comparison starts from
    (harness/diff/engine.py `_index_routes`, harness/pipeline.py `_sim_only_index`). */
module FibIndex {
  import opened Ordering
  import opened Text
  import opened Fib

  datatype RouteKey = RouteKey(node: string, vrf: string, prefix: string)

  type Index = map<RouteKey, Route>

  /** The keys that both indexes hold with routes related by `rel`. */
  function Agreeing(x: Index, y: Index, rel: (Route, Route) -> bool): set<RouteKey> {
    set k | k in x && k in y && rel(x[k], y[k])
  }

  function KeyIn(fib: NodeFib, prefix: string): RouteKey {
    RouteKey(fib.node, fib.vrf, prefix)
  }

  /** The entries of `out` after the first routes of one canonical FIB were stored, later ones winning. */
  function Store(out: Index, fib: NodeFib, rs: seq<Route>): Index {
    if rs == [] then out
    else Store(out, fib, rs[..|rs| - 1])[KeyIn(fib, rs[|rs| - 1].prefix) := rs[|rs| - 1]]
  }

  function IndexOf(fibs: seq<NodeFib>, policy: LoopbackPolicy): Index {
    if fibs == [] then map[]
    else
      var fib := CanonicalizeNodeFib(fibs[|fibs| - 1], policy);
      Store(IndexOf(fibs[..|fibs| - 1], policy), fib, fib.routes)
  }

  /** Builds the index; the same key twice keeps the later route. */
  method IndexRoutes(fibs: seq<NodeFib>, policy: LoopbackPolicy) returns (out: Index)
    ensures out == IndexOf(fibs, policy)
  {
    hide CanonicalizeNodeFib;
    out := map[];
    for i := 0 to |fibs|
      invariant out == IndexOf(fibs[..i], policy)
    {
      var fib := CanonicalizeNodeFib(fibs[i], policy);
      for j := 0 to |fib.routes|
        invariant out == Store(IndexOf(fibs[..i], policy), fib, fib.routes[..j])
      {
        var r := fib.routes[j];
        out := out[RouteKey(fib.node, fib.vrf, r.prefix) := r];
        assert fib.routes[..j + 1][..j] == fib.routes[..j];
      }
      assert fib.routes[..|fib.routes|] == fib.routes;
      assert fibs[..i + 1][..i] == fibs[..i];
    }
    assert fibs[..|fibs|] == fibs;
  }

  // ---- closed form ------------------------------------------------------

  /** `routes[i]` wins `prefix` in one FIB: it has the greatest protocol label of the kept routes
      for the prefix and is the last in input order among those with that label. */
  ghost predicate Wins(routes: seq<Route>, policy: LoopbackPolicy, prefix: string, i: nat) {
    && i < |routes| && Kept(policy, routes[i]) && routes[i].prefix == prefix
    && forall j :: 0 <= j < |routes| && Kept(policy, routes[j]) && routes[j].prefix == prefix ==>
         && StringLeq(routes[j].protocol.Label(), routes[i].protocol.Label())
         && (j > i ==> routes[j].protocol != routes[i].protocol)
  }

  ghost predicate Carries(fib: NodeFib, policy: LoopbackPolicy, key: RouteKey) {
    && fib.node == key.node && CanonicalizeVrf(fib.vrf) == key.vrf
    && exists r :: r in fib.routes && Kept(policy, r) && r.prefix == key.prefix
  }

  /** The last FIB that carries `key` decides its route. */
  ghost predicate Decides(fibs: seq<NodeFib>, policy: LoopbackPolicy, key: RouteKey, f: nat, i: nat) {
    && f < |fibs| && Carries(fibs[f], policy, key)
    && (forall g :: f < g < |fibs| ==> !Carries(fibs[g], policy, key))
    && Wins(fibs[f].routes, policy, key.prefix, i)
  }

  /** The last route for `prefix`, which is the one that stays in the index. */
  function LastFor(prefix: string, rs: seq<Route>): Option<Route> {
    if rs == [] then None
    else if rs[|rs| - 1].prefix == prefix then Some(rs[|rs| - 1])
    else LastFor(prefix, rs[..|rs| - 1])
  }

  /** The kept route with the greatest label for `prefix`, the later of two equal ones. */
  function Best(policy: LoopbackPolicy, prefix: string, rs: seq<Route>): (best: Option<nat>)
    ensures best.Some? ==> best.value < |rs|
  {
    if rs == [] then None
    else
      var rest := Best(policy, prefix, rs[1..]);
      var here := Kept(policy, rs[0]) && rs[0].prefix == prefix;
      match rest
      case None => if here then Some(0) else None
      case Some(i) =>
        if here && !StringLeq(rs[0].protocol.Label(), rs[i + 1].protocol.Label()) then Some(0)
        else Some(i + 1)
  }

  lemma LabelOrder()
    ensures forall a: string, b: string :: StringLeq(a, b) || StringLeq(b, a)
    ensures forall a: string, b: string, c: string :: StringLeq(a, b) && StringLeq(b, c) ==> StringLeq(a, c)
    ensures forall a: string, b: string :: StringLeq(a, b) && StringLeq(b, a) ==> a == b
    ensures forall p: Protocol, q: Protocol :: p.Label() == q.Label() ==> p == q
  {
    LexIsTotalOrder(CharLeq);
    forall p: Protocol, q: Protocol | p.Label() == q.Label() ensures p == q {
      assert p.Label()[0] == q.Label()[0];
      assert |p.Label()| == |q.Label()|;
    }
  }

  lemma SamePrefixOrder(a: Route, b: Route)
    requires a.prefix == b.prefix
    ensures RouteLeq(a, b) == StringLeq(a.protocol.Label(), b.protocol.Label())
  {
    LabelOrder();
    var ka, kb := [a.prefix, a.protocol.Label()], [b.prefix, b.protocol.Label()];
    var la, lb := [a.protocol.Label()], [b.protocol.Label()];
    assert ka[1..] == la && kb[1..] == lb;
    assert KeyLeq(ka, kb) == KeyLeq(la, lb);
    assert la[1..] == [] && lb[1..] == [];
    assert KeyLeq(la[1..], lb[1..]);
  }

  lemma BestStep(policy: LoopbackPolicy, prefix: string, rs: seq<Route>)
    requires rs != []
    ensures var rest := Best(policy, prefix, rs[1..]);
            var here := Kept(policy, rs[0]) && rs[0].prefix == prefix;
            Best(policy, prefix, rs) ==
              if rest.None? then if here then Some(0) else None
              else if here && !StringLeq(rs[0].protocol.Label(), rs[rest.value + 1].protocol.Label()) then Some(0)
              else Some(rest.value + 1)
  {
  }

  /** Prepending a route that does not exceed the winner, or is no candidate, keeps the winner. */
  lemma WinsKept(policy: LoopbackPolicy, prefix: string, rs: seq<Route>, i: nat)
    requires rs != [] && Wins(rs[1..], policy, prefix, i)
    requires Kept(policy, rs[0]) && rs[0].prefix == prefix ==>
               StringLeq(rs[0].protocol.Label(), rs[i + 1].protocol.Label())
    ensures Wins(rs, policy, prefix, i + 1)
  {
    hide Kept, StringLeq;
    assert forall j :: 0 < j < |rs| ==> rs[j] == rs[1..][j - 1];
  }

  /** Prepending a greater candidate makes it the winner. */
  lemma WinsTaken(policy: LoopbackPolicy, prefix: string, rs: seq<Route>, i: nat)
    requires rs != [] && Wins(rs[1..], policy, prefix, i)
    requires Kept(policy, rs[0]) && rs[0].prefix == prefix
    requires !StringLeq(rs[0].protocol.Label(), rs[i + 1].protocol.Label())
    ensures Wins(rs, policy, prefix, 0)
  {
    hide Kept, StringLeq;
    LabelOrder();
    forall j | 0 <= j < |rs| && Kept(policy, rs[j]) && rs[j].prefix == prefix
      ensures StringLeq(rs[j].protocol.Label(), rs[0].protocol.Label())
      ensures j > 0 ==> rs[j].protocol != rs[0].protocol
    {
      if j > 0 {
        assert rs[j] == rs[1..][j - 1];
        assert StringLeq(rs[j].protocol.Label(), rs[i + 1].protocol.Label());
      }
    }
  }

  lemma {:induction false} BestWins(policy: LoopbackPolicy, prefix: string, rs: seq<Route>)
    ensures Best(policy, prefix, rs).Some? ==> Wins(rs, policy, prefix, Best(policy, prefix, rs).value)
    ensures Best(policy, prefix, rs).None? ==> forall r :: r in rs && Kept(policy, r) ==> r.prefix != prefix
  {
    hide Kept, StringLeq;
    if rs == [] {
    } else {
      BestWins(policy, prefix, rs[1..]);
      BestStep(policy, prefix, rs);
      assert rs == [rs[0]] + rs[1..];
      match Best(policy, prefix, rs[1..])
      case None =>
        if Kept(policy, rs[0]) && rs[0].prefix == prefix {
          OnlyCandidateWins(policy, prefix, rs);
        }
      case Some(i) =>
        if Best(policy, prefix, rs) == Some(0) {
          WinsTaken(policy, prefix, rs, i);
        } else {
          WinsKept(policy, prefix, rs, i);
        }
    }
  }

  lemma OnlyCandidateWins(policy: LoopbackPolicy, prefix: string, rs: seq<Route>)
    requires rs != [] && Kept(policy, rs[0]) && rs[0].prefix == prefix
    requires forall r :: r in rs[1..] && Kept(policy, r) ==> r.prefix != prefix
    ensures Wins(rs, policy, prefix, 0)
  {
    hide Kept, StringLeq;
    LabelOrder();
    assert forall j :: 0 < j < |rs| ==> rs[j] in rs[1..];
  }

  lemma {:induction false} LastForStep(prefix: string, r: Route, rs: seq<Route>)
    ensures LastFor(prefix, [r] + rs) ==
            if LastFor(prefix, rs).Some? then LastFor(prefix, rs)
            else if r.prefix == prefix then Some(r) else None
  {
    var all := [r] + rs;
    if rs != [] {
      var n := |rs|;
      assert all[|all| - 1] == rs[n - 1] && all[..n] == [r] + rs[..n - 1];
      LastForStep(prefix, r, rs[..n - 1]);
    } else {
      assert all[..0] == [];
    }
  }

  lemma {:induction false} LastForMember(prefix: string, rs: seq<Route>)
    ensures LastFor(prefix, rs).Some? ==> LastFor(prefix, rs).value in rs && LastFor(prefix, rs).value.prefix == prefix
  {
    if rs != [] && rs[|rs| - 1].prefix != prefix {
      LastForMember(prefix, rs[..|rs| - 1]);
    }
  }

  /** Inserting into a sorted list replaces the last route for a prefix only by a greater one. */
  lemma {:induction false} LastForInsert(prefix: string, r: Route, rs: seq<Route>)
    requires Sorted(RouteLeq, rs)
    ensures LastFor(prefix, Insert(RouteLeq, r, rs)) ==
            match LastFor(prefix, rs)
            case None => if r.prefix == prefix then Some(r) else None
            case Some(l) => if r.prefix == prefix && !RouteLeq(r, l) then Some(r) else Some(l)
  {
    RouteOrders();
    if rs == [] || RouteLeq(r, rs[0]) {
      LastForStep(prefix, r, rs);
      LastForMember(prefix, rs);
    } else {
      LastForInsert(prefix, r, rs[1..]);
      LastForStep(prefix, rs[0], rs[1..]);
      LastForStep(prefix, rs[0], Insert(RouteLeq, r, rs[1..]));
      LastForMember(prefix, rs[1..]);
      assert rs == [rs[0]] + rs[1..];
    }
  }

  lemma KeepStep(policy: LoopbackPolicy, rs: seq<Route>)
    requires rs != []
    ensures KeepRoutes(policy, CanonicalizeRoutes(rs))
            == (if Kept(policy, rs[0]) then [CanonicalizeRoute(rs[0])] else [])
             + KeepRoutes(policy, CanonicalizeRoutes(rs[1..]))
  {
    CanonicalRoute(rs[0]);
    assert CanonicalizeRoutes(rs)[1..] == CanonicalizeRoutes(rs[1..]);
  }

  /** In the sorted canonical FIB the last route for a prefix is the best one of the raw FIB. */
  lemma {:induction false} LastIsBest(policy: LoopbackPolicy, prefix: string, rs: seq<Route>)
    ensures var sorted := StableSort(RouteLeq, KeepRoutes(policy, CanonicalizeRoutes(rs)));
            match Best(policy, prefix, rs)
            case None => LastFor(prefix, sorted) == None
            case Some(i) => LastFor(prefix, sorted) == Some(CanonicalizeRoute(rs[i]))
  {
    hide Kept, StringLeq, RouteLeq, CanonicalizeNextHops;
    if rs == [] {
    } else {
      LastIsBest(policy, prefix, rs[1..]);
      BestStep(policy, prefix, rs);
      KeepStep(policy, rs);
      var tail := KeepRoutes(policy, CanonicalizeRoutes(rs[1..]));
      if Kept(policy, rs[0]) {
        var c := CanonicalizeRoute(rs[0]);
        RouteOrders();
        StableSortSorted(RouteLeq, tail);
        LastForInsert(prefix, c, StableSort(RouteLeq, tail));
        assert ([c] + tail)[1..] == tail;
        var best := Best(policy, prefix, rs[1..]);
        if best.Some? && rs[0].prefix == prefix {
          LastForMember(prefix, StableSort(RouteLeq, tail));
          SamePrefixOrder(c, CanonicalizeRoute(rs[1..][best.value]));
        }
      } else {
        assert [] + tail == tail;
      }
    }
  }

  lemma {:induction false} StoreLookup(out: Index, fib: NodeFib, rs: seq<Route>, key: RouteKey)
    ensures var here := if fib.node == key.node && fib.vrf == key.vrf then LastFor(key.prefix, rs) else None;
            var stored := Store(out, fib, rs);
            if here.Some? then key in stored && stored[key] == here.value
            else (key in stored <==> key in out) && (key in out ==> stored[key] == out[key])
  {
    if rs == [] {
    } else {
      StoreLookup(out, fib, rs[..|rs| - 1], key);
    }
  }

  /** The route the index holds for `key`, read off the raw FIBs. */
  function Find(fibs: seq<NodeFib>, policy: LoopbackPolicy, key: RouteKey): Option<Route> {
    if fibs == [] then None
    else
      var fib := fibs[|fibs| - 1];
      var best := if fib.node == key.node && CanonicalizeVrf(fib.vrf) == key.vrf
                  then Best(policy, key.prefix, fib.routes) else None;
      if best.Some? then Some(CanonicalizeRoute(fib.routes[best.value]))
      else Find(fibs[..|fibs| - 1], policy, key)
  }

  lemma {:induction false} IndexIsFind(fibs: seq<NodeFib>, policy: LoopbackPolicy, key: RouteKey)
    ensures key in IndexOf(fibs, policy) <==> Find(fibs, policy, key).Some?
    ensures key in IndexOf(fibs, policy) ==> IndexOf(fibs, policy)[key] == Find(fibs, policy, key).value
  {
    if fibs == [] {
    } else {
      var init, raw := fibs[..|fibs| - 1], fibs[|fibs| - 1];
      var fib := CanonicalizeNodeFib(raw, policy);
      IndexIsFind(init, policy, key);
      StoreLookup(IndexOf(init, policy), fib, fib.routes, key);
      LastIsBest(policy, key.prefix, raw.routes);
    }
  }

  lemma CarriesIsBest(fib: NodeFib, policy: LoopbackPolicy, key: RouteKey)
    ensures Carries(fib, policy, key) <==>
            fib.node == key.node && CanonicalizeVrf(fib.vrf) == key.vrf && Best(policy, key.prefix, fib.routes).Some?
    ensures Best(policy, key.prefix, fib.routes).Some? ==>
            Wins(fib.routes, policy, key.prefix, Best(policy, key.prefix, fib.routes).value)
  {
    BestWins(policy, key.prefix, fib.routes);
  }

  lemma DecidesExtend(fibs: seq<NodeFib>, policy: LoopbackPolicy, key: RouteKey, f: nat, i: nat)
    requires fibs != [] && !Carries(fibs[|fibs| - 1], policy, key)
    requires Decides(fibs[..|fibs| - 1], policy, key, f, i)
    ensures Decides(fibs, policy, key, f, i)
  {
    hide Wins, Carries;
    assert fibs[..|fibs| - 1][f] == fibs[f];
    forall g | f < g < |fibs| ensures !Carries(fibs[g], policy, key) {
      if g < |fibs| - 1 {
        assert fibs[..|fibs| - 1][g] == fibs[g];
      }
    }
  }

  lemma {:induction false} FindDecides(fibs: seq<NodeFib>, policy: LoopbackPolicy, key: RouteKey)
    returns (f: nat, i: nat)
    ensures Find(fibs, policy, key).Some? ==>
            Decides(fibs, policy, key, f, i) && Find(fibs, policy, key).value == CanonicalizeRoute(fibs[f].routes[i])
    ensures Find(fibs, policy, key).None? ==> forall g :: 0 <= g < |fibs| ==> !Carries(fibs[g], policy, key)
  {
    hide Best, Wins, Carries;
    f, i := 0, 0;
    if fibs == [] {
    } else {
      var n := |fibs| - 1;
      CarriesIsBest(fibs[n], policy, key);
      if Carries(fibs[n], policy, key) {
        f, i := n, Best(policy, key.prefix, fibs[n].routes).value;
      } else {
        f, i := FindDecides(fibs[..n], policy, key);
        if Find(fibs, policy, key).Some? {
          DecidesExtend(fibs, policy, key, f, i);
        }
      }
    }
  }

  lemma WinnerUnique(routes: seq<Route>, policy: LoopbackPolicy, prefix: string, i: nat, j: nat)
    requires Wins(routes, policy, prefix, i) && Wins(routes, policy, prefix, j)
    ensures i == j
  {
    LabelOrder();
  }

  /** The closed form of the index: a key is present exactly when some FIB carries it, and it then
      holds the canonical form of the route that wins its prefix in the last such FIB. */
  lemma IndexClosedForm(fibs: seq<NodeFib>, policy: LoopbackPolicy, key: RouteKey)
    ensures key in IndexOf(fibs, policy) <==> exists fib :: fib in fibs && Carries(fib, policy, key)
    ensures key in IndexOf(fibs, policy) <==> exists f: nat, i: nat :: Decides(fibs, policy, key, f, i)
    ensures forall f: nat, i: nat :: Decides(fibs, policy, key, f, i) ==>
              key in IndexOf(fibs, policy) && IndexOf(fibs, policy)[key] == CanonicalizeRoute(fibs[f].routes[i])
  {
    IndexIsFind(fibs, policy, key);
    var f, i := FindDecides(fibs, policy, key);
    if Find(fibs, policy, key).Some? {
      assert fibs[f] in fibs;
      forall g: nat, j: nat | Decides(fibs, policy, key, g, j)
        ensures g == f && j == i
      {
        assert g == f;
        WinnerUnique(fibs[f].routes, policy, key.prefix, i, j);
      }
    }
  }

  lemma IndexPrefix(fibs: seq<NodeFib>, policy: LoopbackPolicy, key: RouteKey)
    requires key in IndexOf(fibs, policy)
    ensures IndexOf(fibs, policy)[key].prefix == key.prefix
  {
    IndexIsFind(fibs, policy, key);
    var f, i := FindDecides(fibs, policy, key);
  }

  /** Under STRIP no loopback connected or local /32 reaches the index. */
  lemma StripLeavesNoLoopbackHost(fibs: seq<NodeFib>, key: RouteKey)
    requires key in IndexOf(fibs, STRIP)
    ensures !IsLoopbackHost(IndexOf(fibs, STRIP)[key])
    ensures IndexOf(fibs, STRIP)[key].prefix == key.prefix
  {
    IndexPrefix(fibs, STRIP, key);
    IndexIsFind(fibs, STRIP, key);
    var f, i := FindDecides(fibs, STRIP, key);
    CanonicalRoute(fibs[f].routes[i]);
  }
}

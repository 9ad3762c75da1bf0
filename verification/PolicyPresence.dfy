/** The presence that the three loopback policies publish for the same FIBs (harness/pipeline.py):
    unlike on one pair of indexes, the policy also decides which routes are indexed. */
module PolicyPresence {
  import opened RealArithmetic
  import opened Text
  import opened Fib
  import opened FibIndex
  import opened Metrics
  import opened Reconcile
  import opened ReconcileLaws

  function ReconciledFibs(bf: seq<NodeFib>, hh: seq<NodeFib>, policy: LoopbackPolicy): Reconciliation {
    Reconciled(IndexOf(bf, policy), IndexOf(hh, policy), policy)
  }

  function Presence(bf: seq<NodeFib>, hh: seq<NodeFib>, policy: LoopbackPolicy): real {
    Jaccard(ReconciledFibs(bf, hh, policy).bf, ReconciledFibs(bf, hh, policy).hh)
  }

  // ---- the indexes of the policies --------------------------------------

  lemma StripIndexesLess(fibs: seq<NodeFib>)
    ensures IndexOf(fibs, STRIP).Keys <= IndexOf(fibs, PASSTHROUGH).Keys
  {
    hide IsLoopbackHost;
    forall key | key in IndexOf(fibs, STRIP) ensures key in IndexOf(fibs, PASSTHROUGH) {
      IndexClosedForm(fibs, STRIP, key);
      IndexClosedForm(fibs, PASSTHROUGH, key);
      var fib :| fib in fibs && Carries(fib, STRIP, key);
      assert Carries(fib, PASSTHROUGH, key);
    }
  }

  lemma {:induction false} KeepsAll(policy: LoopbackPolicy, rs: seq<Route>)
    requires policy != STRIP
    ensures KeepRoutes(policy, rs) == rs
  {
    KeepRoutesAll(policy, rs);
  }

  lemma {:induction false} MaterializeIndexesTheSame(fibs: seq<NodeFib>)
    ensures IndexOf(fibs, MATERIALIZE) == IndexOf(fibs, PASSTHROUGH)
  {
    if fibs == [] {
    } else {
      var last := fibs[|fibs| - 1];
      MaterializeIndexesTheSame(fibs[..|fibs| - 1]);
      KeepsAll(MATERIALIZE, CanonicalizeRoutes(last.routes));
      KeepsAll(PASSTHROUGH, CanonicalizeRoutes(last.routes));
    }
  }

  /** MATERIALIZE publishes at least the presence of PASSTHROUGH. */
  lemma MaterializeAbovePassthrough(bf: seq<NodeFib>, hh: seq<NodeFib>)
    ensures Presence(bf, hh, PASSTHROUGH) <= Presence(bf, hh, MATERIALIZE)
  {
    MaterializeIndexesTheSame(bf);
    MaterializeIndexesTheSame(hh);
    PresenceOrder(IndexOf(bf, PASSTHROUGH), IndexOf(hh, PASSTHROUGH));
  }

  // ---- STRIP against PASSTHROUGH ----------------------------------------

  function Shared(r: Reconciliation): set<RouteKey> {
    r.bf.Keys * r.hh.Keys
  }

  function Either(r: Reconciliation): set<RouteKey> {
    r.bf.Keys + r.hh.Keys
  }

  /** The keys that PASSTHROUGH compares and STRIP does not, and those of them both sides hold. */
  function Lost(bf: seq<NodeFib>, hh: seq<NodeFib>): set<RouteKey> {
    Either(ReconciledFibs(bf, hh, PASSTHROUGH)) - Either(ReconciledFibs(bf, hh, STRIP))
  }

  function LostShared(bf: seq<NodeFib>, hh: seq<NodeFib>): set<RouteKey> {
    Shared(ReconciledFibs(bf, hh, PASSTHROUGH)) - Shared(ReconciledFibs(bf, hh, STRIP))
  }

  lemma StripComparesLess(bf: seq<NodeFib>, hh: seq<NodeFib>)
    ensures Shared(ReconciledFibs(bf, hh, STRIP)) <= Shared(ReconciledFibs(bf, hh, PASSTHROUGH))
    ensures Either(ReconciledFibs(bf, hh, STRIP)) <= Either(ReconciledFibs(bf, hh, PASSTHROUGH))
    ensures Shared(ReconciledFibs(bf, hh, STRIP)) <= Either(ReconciledFibs(bf, hh, STRIP))
  {
    StripIndexesLess(bf);
    StripIndexesLess(hh);
  }

  /** `c` of `d` is no larger a share than `both` of `union`. */
  predicate NoLargerShare(c: nat, d: nat, both: nat, union: nat) {
    c * union <= both * d
  }

  /** Taking `c` of `both` and `d` of `union` does not lower the share exactly when `c` is at most
      that share of `d`. */
  lemma ShareAfterLoss(both: nat, union: nat, c: nat, d: nat)
    requires c <= both <= union && d < union
    ensures SafeDiv(both, union) <= SafeDiv(both - c, union - d) <==> NoLargerShare(c, d, both, union)
  {
    var b, u, x, y := both as real, union as real, c as real, d as real;
    var p, q := b - x, u - y;
    QuotientsCompare(b, u, p, q);
    assert b * q == b * u - b * y;
    assert p * u == b * u - x * u;
    CastProducts(c, union, both, d);
  }

  lemma CastProducts(a: nat, b: nat, c: nat, d: nat)
    ensures a * b <= c * d <==> a as real * b as real <= c as real * d as real
  {
    assert (a * b) as real == a as real * b as real;
    assert (c * d) as real == c as real * d as real;
  }

  lemma SharesOfSets(both: set<RouteKey>, union: set<RouteKey>, both': set<RouteKey>, union': set<RouteKey>)
    requires both' <= both <= union && union' <= union && union' != {}
    ensures SafeDiv(|both|, |union|) <= SafeDiv(|both'|, |union'|) <==>
            NoLargerShare(|both - both'|, |union - union'|, |both|, |union|)
  {
    hide SafeDiv, NoLargerShare;
    SizeMinus(both, both');
    SizeMinus(union, union');
    SubsetSize(both, union);
    SizeMinus(both, both - both');
    assert both - (both - both') == both' && union - (union - union') == union';
    ShareAfterLoss(|both|, |union|, |both - both'|, |union - union'|);
  }

  lemma PresenceIs(bf: seq<NodeFib>, hh: seq<NodeFib>, policy: LoopbackPolicy)
    ensures var r := ReconciledFibs(bf, hh, policy);
            Presence(bf, hh, policy) == SafeDiv(|Shared(r)|, |Either(r)|) && Shared(r) <= Either(r)
  {
  }

  lemma NothingCompared(both: set<RouteKey>, union: set<RouteKey>, both': set<RouteKey>, union': set<RouteKey>)
    requires both <= union && both' <= union' == {}
    ensures SafeDiv(|both|, |union|) <= SafeDiv(|both'|, |union'|)
  {
    hide SafeDiv;
    SubsetSize(both, union);
    SafeDivUnit(|both|, |union|);
    assert both' == {};
    assert SafeDiv(0, 0) == 1.0 by { NothingDivided(); }
  }

  /** STRIP publishes at least the presence of PASSTHROUGH exactly when it leaves nothing to compare,
      or both sides share no larger a part of the keys it drops than of all keys. */
  lemma StripAgainstPassthrough(bf: seq<NodeFib>, hh: seq<NodeFib>)
    ensures var p := ReconciledFibs(bf, hh, PASSTHROUGH);
            Presence(bf, hh, PASSTHROUGH) <= Presence(bf, hh, STRIP) <==>
              || Either(ReconciledFibs(bf, hh, STRIP)) == {}
              || NoLargerShare(|LostShared(bf, hh)|, |Lost(bf, hh)|, |Shared(p)|, |Either(p)|)
  {
    hide ReconciledFibs, Shared, Either, SafeDiv, NoLargerShare, Presence;
    var p, s := ReconciledFibs(bf, hh, PASSTHROUGH), ReconciledFibs(bf, hh, STRIP);
    PresenceIs(bf, hh, PASSTHROUGH);
    PresenceIs(bf, hh, STRIP);
    StripComparesLess(bf, hh);
    if Either(s) == {} {
      NothingCompared(Shared(p), Either(p), Shared(s), Either(s));
    } else {
      SharesOfSets(Shared(p), Either(p), Shared(s), Either(s));
    }
  }

  /** So it does whenever no key that both sides hold is dropped. */
  lemma StripAboveWhenNothingSharedIsLost(bf: seq<NodeFib>, hh: seq<NodeFib>)
    requires LostShared(bf, hh) == {}
    ensures Presence(bf, hh, PASSTHROUGH) <= Presence(bf, hh, STRIP)
  {
    hide ReconciledFibs, Shared, Either, Lost, LostShared, Presence;
    var p := ReconciledFibs(bf, hh, PASSTHROUGH);
    assert NoLargerShare(0, |Lost(bf, hh)|, |Shared(p)|, |Either(p)|);
    StripAgainstPassthrough(bf, hh);
  }

  // ---- an input on which STRIP publishes less ---------------------------

  const LO := Route("10.0.0.1/32", Connected, [NextHop(None, Some("lo"))], None, None, None, None, None, None)
  const BF_ONLY := Route("10.1.0.0/24", Static, [], None, None, None, None, None, None)
  const HH_ONLY := Route("10.2.0.0/24", Static, [], None, None, None, None, None, None)

  function FibWith(r: Route): NodeFib {
    NodeFib("r1", "default", Fib.Batfish, [LO, r])
  }

  function KeyOf(prefix: string): RouteKey {
    RouteKey("r1", CanonicalizeVrf("default"), prefix)
  }

  lemma LoIsLoopback()
    ensures IsLoopbackHost(LO) && !IsLoopbackHost(BF_ONLY) && !IsLoopbackHost(HH_ONLY)
  {
    var nh := NextHop(None, Some("lo"));
    assert LO.nextHops[0] == nh;
    assert Lower("lo") == "lo";
    assert IsLoopbackInterface(nh);
    assert EndsWith(LO.prefix, "/32");
  }

  lemma KeysOfFib(r: Route, policy: LoopbackPolicy)
    requires r.protocol == Static
    ensures IndexOf([FibWith(r)], policy).Keys
         == if policy == STRIP then {KeyOf(r.prefix)} else {KeyOf(r.prefix), KeyOf(LO.prefix)}
  {
    LoIsLoopback();
    hide IsLoopbackHost, CanonicalizeVrf;
    var fibs := [FibWith(r)];
    assert !IsLoopbackHost(r) by { StaticIsNoLoopback(r); }
    forall key
      ensures key in IndexOf(fibs, policy) <==> key == KeyOf(r.prefix) || (key == KeyOf(LO.prefix) && policy != STRIP)
    {
      IndexClosedForm(fibs, policy, key);
      assert FibWith(r).routes[0] == LO && FibWith(r).routes[1] == r;
      assert fibs[0] == FibWith(r);
    }
  }

  lemma StaticIsNoLoopback(r: Route)
    requires r.protocol == Static
    ensures !IsLoopbackHost(r) && !LooksLikeLoopbackHost(r)
  {
  }

  lemma StaticStays(bf: seq<NodeFib>, hh: seq<NodeFib>, key: RouteKey)
    requires !EndsWith(key.prefix, "/32")
    ensures key !in Moved(IndexOf(bf, STRIP), IndexOf(hh, STRIP))
  {
    if key in Moved(IndexOf(bf, STRIP), IndexOf(hh, STRIP)) {
      StripMovesOnlyIgp(bf, hh, key);
    }
  }

  lemma ThreeKeys(a: RouteKey, b: RouteKey, c: RouteKey, moved: set<RouteKey>)
    requires a != b && b != c && a != c && a !in moved
    ensures SafeDiv(|{a, c} * {b, c}|, |{a, c} + {b, c}|) == 1.0 / 3.0
    ensures SafeDiv(|{a} * {b}|, |{a} + {b} - moved|) == 0.0
  {
    assert {a, c} * {b, c} == {c} && {a, c} + {b, c} == {a, b, c} && {a} * {b} == {};
    assert a in {a} + {b} - moved;
  }

  /** One shared loopback row beside one row that each side has alone: PASSTHROUGH publishes a third,
      and STRIP, which drops the shared row, publishes nothing. */
  lemma StripCanPublishLess()
    ensures Presence([FibWith(BF_ONLY)], [FibWith(HH_ONLY)], PASSTHROUGH) == 1.0 / 3.0
    ensures Presence([FibWith(BF_ONLY)], [FibWith(HH_ONLY)], STRIP) == 0.0
  {
    hide CanonicalizeVrf, IndexOf, Moved, SafeDiv, FibWith;
    var bf, hh := [FibWith(BF_ONLY)], [FibWith(HH_ONLY)];
    var a, b, c := KeyOf(BF_ONLY.prefix), KeyOf(HH_ONLY.prefix), KeyOf(LO.prefix);
    assert a.prefix[3] == '1' && b.prefix[3] == '2' && c.prefix[3] == '0';
    KeysOfFib(BF_ONLY, PASSTHROUGH);
    KeysOfFib(HH_ONLY, PASSTHROUGH);
    KeysOfFib(BF_ONLY, STRIP);
    KeysOfFib(HH_ONLY, STRIP);
    StaticStays(bf, hh, a);
    StripPresence(IndexOf(bf, STRIP), IndexOf(hh, STRIP));
    ThreeKeys(a, b, c, Moved(IndexOf(bf, STRIP), IndexOf(hh, STRIP)));
  }
}

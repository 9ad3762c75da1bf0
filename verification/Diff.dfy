/** The cell-by-cell comparison of three FIB sources (harness/diff/engine.py). */
module Diff {
  import opened Ordering
  import opened Text
  import opened Fib
  import opened FibIndex

  datatype Presence =
    | AllThree | VendorAndBatfish | VendorAndHammerhead | BatfishAndHammerhead
    | VendorOnly | BatfishOnly | HammerheadOnly

  /** What one simulator's side of a record says: its route and the bits against the vendor. */
  datatype Side = Side(
    protocol: Option<Protocol>,
    nextHops: seq<NextHop>,
    nextHopMatch: Option<bool>,
    protocolMatch: Option<bool>,
    bgpAttrsMatch: Option<bool>)

  datatype DiffRecord = DiffRecord(
    key: RouteKey,
    presence: Presence,
    vendorProtocol: Option<Protocol>,
    vendorNextHops: seq<NextHop>,
    batfish: Side,
    hammerhead: Side)

  datatype Workspace = Workspace(vendor: seq<NodeFib>, batfish: seq<NodeFib>, hammerhead: seq<NodeFib>)

  // ---- one record -------------------------------------------------------

  function PresenceOf(v: bool, b: bool, h: bool): Presence
    requires v || b || h
  {
    if v && b && h then AllThree
    else if v && b then VendorAndBatfish
    else if v && h then VendorAndHammerhead
    else if b && h then BatfishAndHammerhead
    else if v then VendorOnly
    else if b then BatfishOnly
    else HammerheadOnly
  }

  function NextHopSet(r: Route): set<NextHop> {
    set nh | nh in r.nextHops
  }

  predicate NextHopsEqual(a: Route, b: Route) {
    NextHopSet(a) == NextHopSet(b)
  }

  predicate BothBgp(a: Route, b: Route) {
    a.protocol == Bgp && b.protocol == Bgp
  }

  predicate BgpAttrsEqual(a: Route, b: Route) {
    a.asPath == b.asPath && a.localPref == b.localPref && a.med == b.med
  }

  function BgpAttrsMatch(a: Route, b: Route): Option<bool> {
    if BothBgp(a, b) then Some(BgpAttrsEqual(a, b)) else None
  }

  function Get(ix: Index, key: RouteKey): Option<Route> {
    if key in ix then Some(ix[key]) else None
  }

  function BuildSide(v: Option<Route>, s: Option<Route>): Side {
    var protocol := if s.Some? then Some(s.value.protocol) else None;
    var nextHops := if s.Some? then s.value.nextHops else [];
    if v.Some? && s.Some? then
      Side(protocol, nextHops,
           Some(NextHopsEqual(v.value, s.value)),
           Some(v.value.protocol == s.value.protocol),
           BgpAttrsMatch(v.value, s.value))
    else
      Side(protocol, nextHops, None, None, None)
  }

  function BuildRecord(key: RouteKey, v: Option<Route>, b: Option<Route>, h: Option<Route>): DiffRecord
    requires v.Some? || b.Some? || h.Some?
  {
    DiffRecord(key, PresenceOf(v.Some?, b.Some?, h.Some?),
               if v.Some? then Some(v.value.protocol) else None,
               if v.Some? then v.value.nextHops else [],
               BuildSide(v, b), BuildSide(v, h))
  }

  // ---- sorted keys ------------------------------------------------------

  predicate RouteKeyLeq(a: RouteKey, b: RouteKey) {
    KeyLeq([a.node, a.vrf, a.prefix], [b.node, b.vrf, b.prefix])
  }

  lemma RouteKeyOrder()
    ensures TotalPreorder(RouteKeyLeq) && Antisymmetric(RouteKeyLeq)
  {
    KeyOrder();
    forall a, b ensures RouteKeyLeq(a, b) || RouteKeyLeq(b, a) {
      assert KeyLeq([a.node, a.vrf, a.prefix], [b.node, b.vrf, b.prefix]) ||
             KeyLeq([b.node, b.vrf, b.prefix], [a.node, a.vrf, a.prefix]);
    }
    forall a, b | RouteKeyLeq(a, b) && RouteKeyLeq(b, a) ensures a == b {
      var ka, kb := [a.node, a.vrf, a.prefix], [b.node, b.vrf, b.prefix];
      assert ka == kb;
      assert ka[0] == kb[0] && ka[1] == kb[1] && ka[2] == kb[2];
    }
    assert TotalPreorder(RouteKeyLeq) by {
      forall a, b, c | RouteKeyLeq(a, b) && RouteKeyLeq(b, c) ensures RouteKeyLeq(a, c) {
        assert KeyLeq([a.node, a.vrf, a.prefix], [c.node, c.vrf, c.prefix]);
      }
    }
  }

  /** Strictly increasing: ordered and without repeats. */
  ghost predicate Increasing(ks: seq<RouteKey>) {
    forall i, j :: 0 <= i < j < |ks| ==> RouteKeyLeq(ks[i], ks[j]) && ks[i] != ks[j]
  }

  function KeysOf(ks: seq<RouteKey>): set<RouteKey> {
    set k | k in ks
  }

  /** `sorted(keys)`: takes the keys out one by one and sorts the list. */
  method SortKeys(keys: set<RouteKey>) returns (ks: seq<RouteKey>)
    ensures Increasing(ks) && KeysOf(ks) == keys
  {
    hide Increasing;
    var todo, list := keys, [];
    while todo != {}
      invariant todo !! KeysOf(list) && todo + KeysOf(list) == keys
      invariant Distinct(list)
      decreases |todo|
    {
      var k :| k in todo;
      assert KeysOf(list + [k]) == KeysOf(list) + {k};
      todo, list := todo - {k}, list + [k];
    }
    ks := StableSort(RouteKeyLeq, list);
    SortedDistinct(list);
  }

  lemma SortedDistinct(list: seq<RouteKey>)
    requires Distinct(list)
    ensures Increasing(StableSort(RouteKeyLeq, list))
    ensures KeysOf(StableSort(RouteKeyLeq, list)) == KeysOf(list)
  {
    hide StableSort, RouteKeyLeq;
    var ks := StableSort(RouteKeyLeq, list);
    RouteKeyOrder();
    StableSortSorted(RouteKeyLeq, list);
    DistinctPermuted(list, ks);
    assert forall k :: k in ks <==> k in multiset(ks);
    assert forall k :: k in list <==> k in multiset(list);
  }

  /** A strictly increasing list is determined by its elements. */
  lemma {:induction false} IncreasingUnique(ks: seq<RouteKey>, ls: seq<RouteKey>)
    requires Increasing(ks) && Increasing(ls) && KeysOf(ks) == KeysOf(ls)
    ensures ks == ls
  {
    RouteKeyOrder();
    assert forall k :: k in ks <==> k in KeysOf(ks);
    assert forall k :: k in ls <==> k in KeysOf(ls);
    assert ls != [] ==> ls[0] in ls;
    if ks == [] {
    } else {
      assert ks[0] in ks && ks[0] in ls;
      assert ls[0] in ls && ls[0] in ks;
      assert ks[0] == ls[0];
      assert KeysOf(ks[1..]) == KeysOf(ks) - {ks[0]};
      assert KeysOf(ls[1..]) == KeysOf(ls) - {ls[0]};
      IncreasingUnique(ks[1..], ls[1..]);
      assert ks == [ks[0]] + ks[1..] && ls == [ls[0]] + ls[1..];
    }
  }

  // ---- the diff ---------------------------------------------------------

  function UnionKeys(v: Index, b: Index, h: Index): set<RouteKey> {
    v.Keys + b.Keys + h.Keys
  }

  function RecordAt(v: Index, b: Index, h: Index, key: RouteKey): DiffRecord
    requires key in UnionKeys(v, b, h)
  {
    BuildRecord(key, Get(v, key), Get(b, key), Get(h, key))
  }

  function RecordKeys(records: seq<DiffRecord>): seq<RouteKey> {
    seq(|records|, i requires 0 <= i < |records| => records[i].key)
  }

  ghost predicate Faithful(v: Index, b: Index, h: Index, r: DiffRecord) {
    r.key in UnionKeys(v, b, h) && r == RecordAt(v, b, h, r.key)
  }

  /** `records` holds one record for each key of the union, in strictly increasing key order. */
  ghost predicate IsDiff(v: Index, b: Index, h: Index, records: seq<DiffRecord>) {
    && Increasing(RecordKeys(records)) && KeysOf(RecordKeys(records)) == UnionKeys(v, b, h)
    && forall i :: 0 <= i < |records| ==> Faithful(v, b, h, records[i])
  }

  method DiffFibs(w: Workspace, policy: LoopbackPolicy) returns (records: seq<DiffRecord>)
    ensures IsDiff(IndexOf(w.vendor, policy), IndexOf(w.batfish, policy), IndexOf(w.hammerhead, policy), records)
  {
    var vendor := IndexRoutes(w.vendor, policy);
    var batfish := IndexRoutes(w.batfish, policy);
    var hammerhead := IndexRoutes(w.hammerhead, policy);
    records := DiffIndexes(vendor, batfish, hammerhead);
  }

  /** The loop of `diff_fibs` over the sorted key union. */
  method DiffIndexes(vendor: Index, batfish: Index, hammerhead: Index) returns (records: seq<DiffRecord>)
    ensures IsDiff(vendor, batfish, hammerhead, records)
  {
    hide BuildSide, Increasing;
    var keys := SortKeys(vendor.Keys + batfish.Keys + hammerhead.Keys);
    records := [];
    for i := 0 to |keys|
      invariant |records| == i
      invariant forall j :: 0 <= j < i ==>
                  records[j].key == keys[j] && Faithful(vendor, batfish, hammerhead, records[j])
    {
      var key := keys[i];
      assert key in KeysOf(keys);
      var record := BuildRecord(key, Get(vendor, key), Get(batfish, key), Get(hammerhead, key));
      assert Faithful(vendor, batfish, hammerhead, record);
      records := records + [record];
    }
    assert RecordKeys(records) == keys;
  }

  /** The diff of three indexes is unique. */
  lemma DiffUnique(v: Index, b: Index, h: Index, xs: seq<DiffRecord>, ys: seq<DiffRecord>)
    requires IsDiff(v, b, h, xs) && IsDiff(v, b, h, ys)
    ensures xs == ys
  {
    IncreasingUnique(RecordKeys(xs), RecordKeys(ys));
    assert |xs| == |RecordKeys(xs)| == |ys|;
    forall i | 0 <= i < |xs| ensures xs[i] == ys[i] {
      assert xs[i].key == RecordKeys(xs)[i] == RecordKeys(ys)[i] == ys[i].key;
      assert Faithful(v, b, h, xs[i]) && Faithful(v, b, h, ys[i]);
    }
  }
}

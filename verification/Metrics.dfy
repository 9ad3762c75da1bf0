/** Headline rates counted from diff records (harness/diff/metrics.py). */
module Metrics {
  import opened Ordering
  import opened Text
  import opened Fib
  import opened FibIndex
  import opened Diff

  datatype Simulator = BatfishSim | HammerheadSim

  datatype SimRates = SimRates(
    presentInBoth: nat,
    nextHopMatch: nat,
    protocolMatch: nat,
    bgpTotal: nat,
    bgpAttrMatch: nat,
    perProtocolTotal: map<string, nat>,
    perProtocolMatch: map<string, nat>)

  datatype SimMetrics = SimMetrics(
    presenceMatchRate: real,
    nextHopMatchRate: real,
    protocolMatchRate: real,
    bgpAttrMatchRate: real,
    perProtocolNextHopMatchRate: map<string, real>)

  datatype TopologyMetrics = TopologyMetrics(
    topology: string,
    totalRoutesVendor: nat,
    totalRoutesBatfish: nat,
    totalRoutesHammerhead: nat,
    batfish: SimMetrics,
    hammerhead: SimMetrics)

  // ---- counting ---------------------------------------------------------

  function SafeDiv(num: nat, denom: nat): real {
    if denom == 0 then 1.0 else num as real / denom as real
  }

  function SideOf(r: DiffRecord, which: Simulator): Side {
    if which == BatfishSim then r.batfish else r.hammerhead
  }

  predicate OnBothSides(r: DiffRecord, which: Simulator) {
    r.presence == AllThree || r.presence == (if which == BatfishSim then VendorAndBatfish else VendorAndHammerhead)
  }

  /** The vendor's protocol label, else the simulator's, else "unknown". */
  function ProtocolName(r: DiffRecord, which: Simulator): string {
    if r.vendorProtocol.Some? then r.vendorProtocol.value.Label()
    else if SideOf(r, which).protocol.Some? then SideOf(r, which).protocol.value.Label()
    else "unknown"
  }

  function Increment(m: map<string, nat>, key: string): map<string, nat> {
    m[key := (if key in m then m[key] else 0) + 1]
  }

  function CollectOne(rates: SimRates, r: DiffRecord, which: Simulator): SimRates {
    if !OnBothSides(r, which) then rates
    else
      var side := SideOf(r, which);
      var name := ProtocolName(r, which);
      SimRates(
        rates.presentInBoth + 1,
        rates.nextHopMatch + (if side.nextHopMatch == Some(true) then 1 else 0),
        rates.protocolMatch + (if side.protocolMatch == Some(true) then 1 else 0),
        rates.bgpTotal + (if side.bgpAttrsMatch.Some? then 1 else 0),
        rates.bgpAttrMatch + (if side.bgpAttrsMatch == Some(true) then 1 else 0),
        Increment(rates.perProtocolTotal, name),
        if side.nextHopMatch == Some(true) then Increment(rates.perProtocolMatch, name) else rates.perProtocolMatch)
  }

  function SimRatesOf(records: seq<DiffRecord>, which: Simulator): SimRates {
    if records == [] then SimRates(0, 0, 0, 0, 0, map[], map[])
    else CollectOne(SimRatesOf(records[..|records| - 1], which), records[|records| - 1], which)
  }

  /** Walks the records once and counts the bits for one simulator. */
  method Collect(records: seq<DiffRecord>, which: Simulator) returns (rates: SimRates)
    ensures rates == SimRatesOf(records, which)
  {
    var present, nextHop, protocol, bgpTotal, bgpMatch := 0, 0, 0, 0, 0;
    var perTotal: map<string, nat>, perMatch: map<string, nat> := map[], map[];
    for i := 0 to |records|
      invariant SimRates(present, nextHop, protocol, bgpTotal, bgpMatch, perTotal, perMatch)
                == SimRatesOf(records[..i], which)
    {
      assert records[..i + 1][..i] == records[..i];
      var r := records[i];
      if !OnBothSides(r, which) {
        continue;
      }
      var side := SideOf(r, which);
      present := present + 1;
      if side.nextHopMatch == Some(true) {
        nextHop := nextHop + 1;
      }
      if side.protocolMatch == Some(true) {
        protocol := protocol + 1;
      }
      if side.bgpAttrsMatch.Some? {
        bgpTotal := bgpTotal + 1;
        if side.bgpAttrsMatch.value {
          bgpMatch := bgpMatch + 1;
        }
      }
      var name := ProtocolName(r, which);
      perTotal := Increment(perTotal, name);
      if side.nextHopMatch == Some(true) {
        perMatch := Increment(perMatch, name);
      }
    }
    assert records[..|records|] == records;
    rates := SimRates(present, nextHop, protocol, bgpTotal, bgpMatch, perTotal, perMatch);
  }

  function Count<T>(p: T -> bool, xs: seq<T>): nat {
    if xs == [] then 0 else Count(p, xs[..|xs| - 1]) + if p(xs[|xs| - 1]) then 1 else 0
  }

  function PerProtocolRates(r: SimRates): map<string, real> {
    map name | name in r.perProtocolTotal ::
      SafeDiv(if name in r.perProtocolMatch then r.perProtocolMatch[name] else 0, r.perProtocolTotal[name])
  }

  function SimMetricsOf(rates: SimRates, vendorTotal: nat): SimMetrics {
    SimMetrics(SafeDiv(rates.presentInBoth, vendorTotal),
               SafeDiv(rates.nextHopMatch, rates.presentInBoth),
               SafeDiv(rates.protocolMatch, rates.presentInBoth),
               SafeDiv(rates.bgpAttrMatch, rates.bgpTotal),
               PerProtocolRates(rates))
  }

  /** The records that carry a route of one source. */
  function CarriedBy(source: Source): DiffRecord -> bool {
    (r: DiffRecord) =>
      match source
      case Vendor => r.vendorProtocol.Some?
      case Batfish => r.batfish.protocol.Some?
      case Hammerhead => r.hammerhead.protocol.Some?
  }

  function MetricsOf(topology: string, records: seq<DiffRecord>): TopologyMetrics {
    var vendorTotal := Count(CarriedBy(Vendor), records);
    TopologyMetrics(topology, vendorTotal,
                    Count(CarriedBy(Batfish), records),
                    Count(CarriedBy(Hammerhead), records),
                    SimMetricsOf(SimRatesOf(records, BatfishSim), vendorTotal),
                    SimMetricsOf(SimRatesOf(records, HammerheadSim), vendorTotal))
  }

  method Aggregate(topology: string, records: seq<DiffRecord>) returns (m: TopologyMetrics)
    ensures m == MetricsOf(topology, records)
  {
    var batfish := Collect(records, BatfishSim);
    var hammerhead := Collect(records, HammerheadSim);
    var vendorTotal := Count(CarriedBy(Vendor), records);
    m := TopologyMetrics(topology, vendorTotal,
                         Count(CarriedBy(Batfish), records),
                         Count(CarriedBy(Hammerhead), records),
                         SimMetricsOf(batfish, vendorTotal), SimMetricsOf(hammerhead, vendorTotal));
  }

  // ---- counters are counts ----------------------------------------------

  ghost function MapSum(m: map<string, nat>): nat
    decreases |m|
  {
    if m == map[] then 0 else
      var k :| k in m;
      assert (m - {k}).Keys == m.Keys - {k};
      m[k] + MapSum(m - {k})
  }

  lemma {:induction false} MapSumSplit(m: map<string, nat>, key: string)
    requires key in m
    ensures MapSum(m) == m[key] + MapSum(m - {key})
    decreases |m|
  {
    var k :| k in m && MapSum(m) == m[k] + MapSum(m - {k});
    if k != key {
      assert (m - {k}).Keys == m.Keys - {k};
      MapSumSplit(m - {k}, key);
      assert (m - {key}).Keys == m.Keys - {key};
      MapSumSplit(m - {key}, k);
      assert m - {k} - {key} == m - {key} - {k};
    }
  }

  lemma MapSumIncrement(m: map<string, nat>, key: string)
    ensures MapSum(Increment(m, key)) == MapSum(m) + 1
  {
    var n := Increment(m, key);
    MapSumSplit(n, key);
    if key in m {
      MapSumSplit(m, key);
    } else {
      assert m - {key} == m;
    }
    assert n - {key} == m - {key};
  }

  function MapGet(m: map<string, nat>, key: string): nat {
    if key in m then m[key] else 0
  }

  /** The things one walk counts. */
  datatype Tally =
    | BothSides | NextHops | Protocols | BgpRows | BgpAttrs
    | RowsOf(proto: Protocol) | NextHopsOf(proto: Protocol)

  function CounterOf(c: SimRates, t: Tally): nat {
    match t
    case BothSides => c.presentInBoth
    case NextHops => c.nextHopMatch
    case Protocols => c.protocolMatch
    case BgpRows => c.bgpTotal
    case BgpAttrs => c.bgpAttrMatch
    case RowsOf(p) => MapGet(c.perProtocolTotal, p.Label())
    case NextHopsOf(p) => MapGet(c.perProtocolMatch, p.Label())
  }

  /** When a record is counted. */
  predicate Counted(t: Tally, r: DiffRecord, which: Simulator) {
    && OnBothSides(r, which)
    && match t
       case BothSides => true
       case NextHops => SideOf(r, which).nextHopMatch == Some(true)
       case Protocols => SideOf(r, which).protocolMatch == Some(true)
       case BgpRows => SideOf(r, which).bgpAttrsMatch.Some?
       case BgpAttrs => SideOf(r, which).bgpAttrsMatch == Some(true)
       case RowsOf(p) => ProtocolName(r, which) == p.Label()
       case NextHopsOf(p) => ProtocolName(r, which) == p.Label() && SideOf(r, which).nextHopMatch == Some(true)
  }

  function CountedBy(t: Tally, which: Simulator): DiffRecord -> bool {
    (r: DiffRecord) => Counted(t, r, which)
  }

  lemma {:induction false} CollectCounts(records: seq<DiffRecord>, which: Simulator, t: Tally)
    ensures CounterOf(SimRatesOf(records, which), t) == Count(CountedBy(t, which), records)
  {
    if records == [] {
    } else {
      CollectCounts(records[..|records| - 1], which, t);
    }
  }

  lemma {:induction false} CollectTotals(records: seq<DiffRecord>, which: Simulator)
    ensures var c := SimRatesOf(records, which);
            && MapSum(c.perProtocolTotal) == c.presentInBoth
            && MapSum(c.perProtocolMatch) == c.nextHopMatch
            && c.nextHopMatch <= c.presentInBoth && c.protocolMatch <= c.presentInBoth && c.bgpAttrMatch <= c.bgpTotal
  {
    hide Increment, ProtocolName;
    if records == [] {
    } else {
      var init, r := records[..|records| - 1], records[|records| - 1];
      var c := SimRatesOf(init, which);
      CollectTotals(init, which);
      MapSumIncrement(c.perProtocolTotal, ProtocolName(r, which));
      MapSumIncrement(c.perProtocolMatch, ProtocolName(r, which));
    }
  }

  lemma {:induction false} CollectBounds(records: seq<DiffRecord>, which: Simulator, name: string)
    ensures var c := SimRatesOf(records, which);
            && (name in c.perProtocolTotal ==> c.perProtocolTotal[name] > 0)
            && MapGet(c.perProtocolMatch, name) <= MapGet(c.perProtocolTotal, name)
  {
    hide ProtocolName;
    if records == [] {
    } else {
      CollectBounds(records[..|records| - 1], which, name);
    }
  }

  lemma CollectSums(records: seq<DiffRecord>, which: Simulator)
    ensures var c := SimRatesOf(records, which);
            && MapSum(c.perProtocolTotal) == c.presentInBoth
            && MapSum(c.perProtocolMatch) == c.nextHopMatch
            && (forall name :: name in c.perProtocolTotal ==> c.perProtocolTotal[name] > 0)
            && (forall name :: MapGet(c.perProtocolMatch, name) <= MapGet(c.perProtocolTotal, name))
            && c.nextHopMatch <= c.presentInBoth && c.protocolMatch <= c.presentInBoth && c.bgpAttrMatch <= c.bgpTotal
  {
    hide SimRatesOf;
    var c := SimRatesOf(records, which);
    CollectTotals(records, which);
    forall name
      ensures name in c.perProtocolTotal ==> c.perProtocolTotal[name] > 0
      ensures MapGet(c.perProtocolMatch, name) <= MapGet(c.perProtocolTotal, name)
    {
      CollectBounds(records, which, name);
    }
  }

  // ---- counts are cardinalities -----------------------------------------

  lemma {:induction false} CountTransfer(p: DiffRecord -> bool, q: RouteKey -> bool, records: seq<DiffRecord>)
    requires forall r :: r in records ==> p(r) == q(r.key)
    ensures Count(p, records) == Count(q, RecordKeys(records))
  {
    if records == [] {
    } else {
      var n := |records| - 1;
      CountTransfer(p, q, records[..n]);
      assert RecordKeys(records)[..n] == RecordKeys(records[..n]);
      assert records[n] in records;
    }
  }

  function Chosen(q: RouteKey -> bool, ks: seq<RouteKey>): set<RouteKey> {
    set k | k in ks && q(k)
  }

  lemma ChosenStep(q: RouteKey -> bool, init: seq<RouteKey>, last: RouteKey)
    requires last !in init
    ensures |Chosen(q, init + [last])| == |Chosen(q, init)| + (if q(last) then 1 else 0)
  {
    var before, after := Chosen(q, init), Chosen(q, init + [last]);
    assert last !in before;
    assert after == before + (if q(last) then {last} else {});
  }

  lemma {:induction false} CountDistinct(q: RouteKey -> bool, ks: seq<RouteKey>)
    requires Distinct(ks)
    ensures Count(q, ks) == |Chosen(q, ks)|
  {
    if ks == [] {
    } else {
      hide Chosen;
      var n := |ks| - 1;
      assert ks == ks[..n] + [ks[n]];
      assert ks[n] !in ks[..n];
      CountDistinct(q, ks[..n]);
      ChosenStep(q, ks[..n], ks[n]);
    }
  }

  /** Counting the records of a diff is counting keys of the union. */
  lemma CountIsCardinality(v: Index, b: Index, h: Index, records: seq<DiffRecord>,
                           p: DiffRecord -> bool, q: RouteKey -> bool, keys: set<RouteKey>)
    requires IsDiff(v, b, h, records)
    requires forall k :: k in UnionKeys(v, b, h) ==> p(RecordAt(v, b, h, k)) == q(k)
    requires forall k :: k in keys <==> k in UnionKeys(v, b, h) && q(k)
    ensures Count(p, records) == |keys|
  {
    forall r | r in records ensures p(r) == q(r.key) {
      var i :| 0 <= i < |records| && records[i] == r;
      assert Faithful(v, b, h, records[i]);
    }
    CountTransfer(p, q, records);
    var ks := RecordKeys(records);
    CountDistinct(q, ks);
    assert forall k :: k in ks <==> k in KeysOf(ks);
    assert Chosen(q, ks) == keys;
  }

  // ---- the set definitions ----------------------------------------------

  predicate SameProtocol(a: Route, b: Route) {
    a.protocol == b.protocol
  }

  predicate BgpAgree(a: Route, b: Route) {
    BothBgp(a, b) && BgpAttrsEqual(a, b)
  }

  function SimIndex(b: Index, h: Index, which: Simulator): Index {
    if which == BatfishSim then b else h
  }

  /** The relation between the two routes of a key that a tally stands for. */
  function RelationOf(t: Tally): (Route, Route) -> bool {
    match t
    case BothSides => (x: Route, y: Route) => true
    case NextHops => NextHopsEqual
    case Protocols => SameProtocol
    case BgpRows => BothBgp
    case BgpAttrs => BgpAgree
    case RowsOf(p) => (x: Route, y: Route) => x.protocol == p
    case NextHopsOf(p) => (x: Route, y: Route) => x.protocol == p && NextHopsEqual(x, y)
  }

  lemma RecordBits(v: Index, b: Index, h: Index, k: RouteKey, which: Simulator, t: Tally)
    requires k in UnionKeys(v, b, h)
    ensures var s := SimIndex(b, h, which);
            Counted(t, RecordAt(v, b, h, k), which) <==> k in v && k in s && RelationOf(t)(v[k], s[k])
  {
    LabelOrder();
    var r, s := RecordAt(v, b, h, k), SimIndex(b, h, which);
    assert OnBothSides(r, which) <==> k in v && k in s;
    assert SideOf(r, which) == BuildSide(Get(v, k), Get(s, k));
    assert k in v ==> ProtocolName(r, which) == v[k].protocol.Label();
  }

  /** Every counter of one simulator is the number of keys that both indexes hold with related routes. */
  lemma CountersAreSets(v: Index, b: Index, h: Index, records: seq<DiffRecord>, which: Simulator, t: Tally)
    requires IsDiff(v, b, h, records)
    ensures CounterOf(SimRatesOf(records, which), t) == |Agreeing(v, SimIndex(b, h, which), RelationOf(t))|
  {
    hide RecordAt, Counted, IsDiff, SimRatesOf;
    var s := SimIndex(b, h, which);
    var q := (k: RouteKey) => k in v && k in s && RelationOf(t)(v[k], s[k]);
    forall k | k in UnionKeys(v, b, h) ensures CountedBy(t, which)(RecordAt(v, b, h, k)) == q(k) {
      RecordBits(v, b, h, k, which, t);
    }
    CollectCounts(records, which, t);
    CountIsCardinality(v, b, h, records, CountedBy(t, which), q, Agreeing(v, s, RelationOf(t)));
  }

  /** The per-protocol counters split the overall ones. */
  lemma PerProtocolSums(v: Index, b: Index, h: Index, records: seq<DiffRecord>, which: Simulator)
    requires IsDiff(v, b, h, records)
    ensures var s, c := SimIndex(b, h, which), SimRatesOf(records, which);
            && MapSum(c.perProtocolTotal) == c.presentInBoth == |v.Keys * s.Keys|
            && MapSum(c.perProtocolMatch) == c.nextHopMatch == |Agreeing(v, s, NextHopsEqual)|
  {
    CollectSums(records, which);
    CountersAreSets(v, b, h, records, which, BothSides);
    CountersAreSets(v, b, h, records, which, NextHops);
    BothSidesKeys(v, SimIndex(b, h, which));
  }

  lemma BothSidesKeys(v: Index, s: Index)
    ensures Agreeing(v, s, RelationOf(BothSides)) == v.Keys * s.Keys
  {
  }

  /** The keys of one presence class, by set algebra. */
  function ClassKeys(v: Index, b: Index, h: Index, c: Presence): set<RouteKey> {
    match c
    case AllThree => v.Keys * b.Keys * h.Keys
    case VendorAndBatfish => v.Keys * b.Keys - h.Keys
    case VendorAndHammerhead => v.Keys * h.Keys - b.Keys
    case BatfishAndHammerhead => b.Keys * h.Keys - v.Keys
    case VendorOnly => v.Keys - b.Keys - h.Keys
    case BatfishOnly => b.Keys - v.Keys - h.Keys
    case HammerheadOnly => h.Keys - v.Keys - b.Keys
  }

  function InClass(c: Presence): DiffRecord -> bool {
    (r: DiffRecord) => r.presence == c
  }

  lemma RecordSources(v: Index, b: Index, h: Index, k: RouteKey)
    requires k in UnionKeys(v, b, h)
    ensures var r := RecordAt(v, b, h, k);
            && r.presence == PresenceOf(k in v, k in b, k in h)
            && (r.vendorProtocol.Some? <==> k in v)
            && (r.batfish.protocol.Some? <==> k in b)
            && (r.hammerhead.protocol.Some? <==> k in h)
  {
  }

  lemma ClassCount(v: Index, b: Index, h: Index, records: seq<DiffRecord>, c: Presence)
    requires IsDiff(v, b, h, records)
    ensures Count(InClass(c), records) == |ClassKeys(v, b, h, c)|
  {
    hide RecordAt, IsDiff;
    var q := (k: RouteKey) => k in ClassKeys(v, b, h, c);
    forall k | k in UnionKeys(v, b, h) ensures InClass(c)(RecordAt(v, b, h, k)) == q(k) {
      RecordSources(v, b, h, k);
    }
    CountIsCardinality(v, b, h, records, InClass(c), q, ClassKeys(v, b, h, c));
  }

  lemma {:induction false} ClassesAddUp(records: seq<DiffRecord>)
    ensures |records| == Count(InClass(AllThree), records) + Count(InClass(VendorAndBatfish), records)
                         + Count(InClass(VendorAndHammerhead), records) + Count(InClass(BatfishAndHammerhead), records)
                         + Count(InClass(VendorOnly), records) + Count(InClass(BatfishOnly), records)
                         + Count(InClass(HammerheadOnly), records)
  {
    if records == [] {
    } else {
      ClassesAddUp(records[..|records| - 1]);
    }
  }

  /** The sizes of the seven presence classes add up to the key union and to the records. */
  lemma PresencePartition(v: Index, b: Index, h: Index, records: seq<DiffRecord>)
    requires IsDiff(v, b, h, records)
    ensures |ClassKeys(v, b, h, AllThree)| + |ClassKeys(v, b, h, VendorAndBatfish)|
            + |ClassKeys(v, b, h, VendorAndHammerhead)| + |ClassKeys(v, b, h, BatfishAndHammerhead)|
            + |ClassKeys(v, b, h, VendorOnly)| + |ClassKeys(v, b, h, BatfishOnly)|
            + |ClassKeys(v, b, h, HammerheadOnly)|
            == |UnionKeys(v, b, h)| == |records|
  {
    ClassCount(v, b, h, records, AllThree);
    ClassCount(v, b, h, records, VendorAndBatfish);
    ClassCount(v, b, h, records, VendorAndHammerhead);
    ClassCount(v, b, h, records, BatfishAndHammerhead);
    ClassCount(v, b, h, records, VendorOnly);
    ClassCount(v, b, h, records, BatfishOnly);
    ClassCount(v, b, h, records, HammerheadOnly);
    ClassesAddUp(records);
    DiffLength(v, b, h, records);
  }

  lemma ClassesDisjoint(v: Index, b: Index, h: Index, k: RouteKey)
    ensures k in UnionKeys(v, b, h) <==> exists c :: k in ClassKeys(v, b, h, c)
    ensures forall c, d :: k in ClassKeys(v, b, h, c) && k in ClassKeys(v, b, h, d) ==> c == d
  {
    if k in UnionKeys(v, b, h) {
      assert k in ClassKeys(v, b, h, PresenceOf(k in v, k in b, k in h));
    }
  }

  lemma DiffLength(v: Index, b: Index, h: Index, records: seq<DiffRecord>)
    requires IsDiff(v, b, h, records)
    ensures |records| == |UnionKeys(v, b, h)|
  {
    var ks := RecordKeys(records);
    var all := (k: RouteKey) => true;
    CountDistinct(all, ks);
    CountEvery(ks);
    assert Chosen(all, ks) == KeysOf(ks);
  }

  lemma {:induction false} CountEvery(ks: seq<RouteKey>)
    ensures Count((k: RouteKey) => true, ks) == |ks|
  {
    if ks == [] {
    } else {
      CountEvery(ks[..|ks| - 1]);
    }
  }

  predicate UnitInterval(x: real) {
    0.0 <= x <= 1.0
  }

  lemma SafeDivUnit(num: nat, denom: nat)
    requires num <= denom
    ensures UnitInterval(SafeDiv(num, denom))
  {
    if denom > 0 {
      var n, d := num as real, denom as real;
      assert n / d * d == n;
      assert n / d <= 1.0;
    }
  }

  lemma NothingDivided()
    ensures SafeDiv(0, 0) == 1.0
  {
  }

  /** Each published rate of a simulator is a quotient of set sizes and lies in [0, 1]. */
  ghost predicate RatesAreSetRates(m: SimMetrics, v: Index, s: Index) {
    && m.presenceMatchRate == SafeDiv(|v.Keys * s.Keys|, |v|)
    && m.nextHopMatchRate == SafeDiv(|Agreeing(v, s, NextHopsEqual)|, |v.Keys * s.Keys|)
    && m.protocolMatchRate == SafeDiv(|Agreeing(v, s, SameProtocol)|, |v.Keys * s.Keys|)
    && m.bgpAttrMatchRate == SafeDiv(|Agreeing(v, s, BgpAgree)|, |Agreeing(v, s, BothBgp)|)
    && UnitInterval(m.presenceMatchRate) && UnitInterval(m.nextHopMatchRate)
    && UnitInterval(m.protocolMatchRate) && UnitInterval(m.bgpAttrMatchRate)
    && PerProtocolAreSetRates(m.perProtocolNextHopMatchRate, v, s)
  }

  ghost predicate PerProtocolAreSetRates(rates: map<string, real>, v: Index, s: Index) {
    && (forall p: Protocol :: ProtocolRateIsSetRate(rates, v, s, p))
    && (forall name :: name in rates ==> UnitInterval(rates[name]) && exists p: Protocol :: p.Label() == name)
  }

  /** A vendor protocol has a rate exactly when some key on both sides has it, and the rate is the
      share of those keys whose next hops are equal. */
  ghost predicate ProtocolRateIsSetRate(rates: map<string, real>, v: Index, s: Index, p: Protocol) {
    var rows, matches := Agreeing(v, s, RelationOf(RowsOf(p))), Agreeing(v, s, RelationOf(NextHopsOf(p)));
    && (p.Label() in rates <==> rows != {})
    && (p.Label() in rates ==> rates[p.Label()] == SafeDiv(|matches|, |rows|))
  }

  lemma ProtocolRates(v: Index, b: Index, h: Index, records: seq<DiffRecord>, which: Simulator, p: Protocol)
    requires IsDiff(v, b, h, records)
    ensures ProtocolRateIsSetRate(PerProtocolRates(SimRatesOf(records, which)), v, SimIndex(b, h, which), p)
  {
    hide SafeDiv, SimRatesOf, RelationOf, IsDiff;
    CountersAreSets(v, b, h, records, which, RowsOf(p));
    CountersAreSets(v, b, h, records, which, NextHopsOf(p));
    CollectSums(records, which);
  }

  /** Only labels of protocols are counted, since the vendor has a route wherever both sides do. */
  lemma {:induction false} CountedNames(records: seq<DiffRecord>, which: Simulator, name: string)
    requires forall r :: r in records && OnBothSides(r, which) ==> r.vendorProtocol.Some?
    requires name in SimRatesOf(records, which).perProtocolTotal
    ensures exists p: Protocol :: p.Label() == name
  {
    if records == [] {
    } else {
      var init, r := records[..|records| - 1], records[|records| - 1];
      assert records == init + [r] && r in records;
      if OnBothSides(r, which) && name == ProtocolName(r, which) {
        assert r.vendorProtocol.value.Label() == name;
      } else {
        CountedNames(init, which, name);
      }
    }
  }

  lemma BothSidesHaveVendor(v: Index, b: Index, h: Index, records: seq<DiffRecord>, which: Simulator)
    requires IsDiff(v, b, h, records)
    ensures forall r :: r in records && OnBothSides(r, which) ==> r.vendorProtocol.Some?
  {
    hide RecordAt;
    forall r | r in records && OnBothSides(r, which) ensures r.vendorProtocol.Some? {
      var i :| 0 <= i < |records| && records[i] == r;
      assert Faithful(v, b, h, records[i]);
      RecordSources(v, b, h, r.key);
    }
  }

  lemma SimMetricsAreSetRates(v: Index, b: Index, h: Index, records: seq<DiffRecord>, which: Simulator)
    requires IsDiff(v, b, h, records)
    ensures RatesAreSetRates(SimMetricsOf(SimRatesOf(records, which), |v|), v, SimIndex(b, h, which))
  {
    hide SafeDiv, UnitInterval, SimRatesOf, PerProtocolAreSetRates;
    var s, c := SimIndex(b, h, which), SimRatesOf(records, which);
    CountersAreSets(v, b, h, records, which, BothSides);
    CountersAreSets(v, b, h, records, which, NextHops);
    CountersAreSets(v, b, h, records, which, Protocols);
    CountersAreSets(v, b, h, records, which, BgpRows);
    CountersAreSets(v, b, h, records, which, BgpAttrs);
    BothSidesKeys(v, s);
    CollectSums(records, which);
    SubsetSize(v.Keys * s.Keys, v.Keys);
    assert |v.Keys| == |v|;
    SafeDivUnit(c.presentInBoth, |v|);
    SafeDivUnit(c.nextHopMatch, c.presentInBoth);
    SafeDivUnit(c.protocolMatch, c.presentInBoth);
    SafeDivUnit(c.bgpAttrMatch, c.bgpTotal);
    PerProtocolMetricsAreSetRates(v, b, h, records, which);
  }

  lemma PerProtocolMetricsAreSetRates(v: Index, b: Index, h: Index, records: seq<DiffRecord>, which: Simulator)
    requires IsDiff(v, b, h, records)
    ensures PerProtocolAreSetRates(PerProtocolRates(SimRatesOf(records, which)), v, SimIndex(b, h, which))
  {
    hide SafeDiv, UnitInterval, SimRatesOf, ProtocolRateIsSetRate, IsDiff;
    var s, c := SimIndex(b, h, which), SimRatesOf(records, which);
    CollectSums(records, which);
    BothSidesHaveVendor(v, b, h, records, which);
    forall name | name in c.perProtocolTotal
      ensures UnitInterval(PerProtocolRates(c)[name]) && exists p: Protocol :: p.Label() == name
    {
      assert MapGet(c.perProtocolMatch, name) <= MapGet(c.perProtocolTotal, name);
      SafeDivUnit(MapGet(c.perProtocolMatch, name), c.perProtocolTotal[name]);
      CountedNames(records, which, name);
    }
    forall p: Protocol ensures ProtocolRateIsSetRate(PerProtocolRates(c), v, s, p) {
      ProtocolRates(v, b, h, records, which, p);
    }
  }

  lemma {:induction false} SubsetSize<T>(a: set<T>, b: set<T>)
    requires a <= b
    ensures |a| <= |b|
  {
    assert b == a + (b - a);
  }

  function SourceIndex(v: Index, b: Index, h: Index, source: Source): Index {
    match source
    case Vendor => v
    case Batfish => b
    case Hammerhead => h
  }

  lemma SourceCount(v: Index, b: Index, h: Index, records: seq<DiffRecord>, source: Source)
    requires IsDiff(v, b, h, records)
    ensures Count(CarriedBy(source), records) == |SourceIndex(v, b, h, source)|
  {
    hide RecordAt, IsDiff;
    var ix := SourceIndex(v, b, h, source);
    var q := (k: RouteKey) => k in ix;
    forall k | k in UnionKeys(v, b, h) ensures CarriedBy(source)(RecordAt(v, b, h, k)) == q(k) {
      RecordSources(v, b, h, k);
    }
    CountIsCardinality(v, b, h, records, CarriedBy(source), q, ix.Keys);
    assert |ix.Keys| == |ix|;
  }

  /** The whole metrics object of a diff: totals are index sizes and rates are set rates. */
  lemma MetricsAreSetRates(topology: string, v: Index, b: Index, h: Index, records: seq<DiffRecord>)
    requires IsDiff(v, b, h, records)
    ensures var m := MetricsOf(topology, records);
            && m.totalRoutesVendor == |v| && m.totalRoutesBatfish == |b| && m.totalRoutesHammerhead == |h|
            && RatesAreSetRates(m.batfish, v, b) && RatesAreSetRates(m.hammerhead, v, h)
  {
    SourceCount(v, b, h, records, Vendor);
    SourceCount(v, b, h, records, Batfish);
    SourceCount(v, b, h, records, Hammerhead);
    SimMetricsAreSetRates(v, b, h, records, BatfishSim);
    SimMetricsAreSetRates(v, b, h, records, HammerheadSim);
  }
}

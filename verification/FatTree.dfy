/** The fat-tree(k) generator (topologies/_shared/fat_tree.py): its allocators, its loops and
    the closed form of what they produce.  Addresses are 32-bit numbers. */
module FatTree {
  import opened Text

  const LOOPBACK_BASE: nat := 0x0A00_0000  // 10.0.0.0/12
  const LOOPBACK_SIZE: nat := 0x10_0000
  const P2P_BASE: nat := 0x0A80_0000       // 10.128.0.0/10
  const P2P_SIZE: nat := 0x40_0000
  const P2P_SUBNETS: nat := 0x10_0000      // the /30s of the /10
  const ADDRESS_SPACE: nat := 0x1_0000_0000

  /** One interface: its own address and the /30 it sits in. */
  datatype Link = Link(ip: nat, subnet: nat)

  datatype Fabric = Fabric(
    coreLo: seq<nat>, aggLo: seq<nat>, edgeLo: seq<nat>,
    coreLinks: seq<seq<Link>>, aggLinks: seq<seq<Link>>, edgeLinks: seq<seq<Link>>)

  datatype Failure = BadK | AddressOverflow | SubnetsExhausted

  datatype Outcome = Generated(fabric: Fabric) | Failed(failure: Failure)

  // ---- index arithmetic -------------------------------------------------

  lemma MulMonotone(h: nat, a: nat, b: nat)
    requires a <= b
    ensures a * h <= b * h
  {
    assert (b - a) * h == b * h - a * h;
  }

  lemma MulStrict(h: nat, a: nat, b: nat)
    requires a < b
    ensures a * h + h <= b * h
  {
    MulMonotone(h, a + 1, b);
    assert (a + 1) * h == a * h + h;
  }

  /** The index of slot `b` of group `a`, in groups of `h`. */
  function At(h: nat, a: nat, b: nat): nat {
    a * h + b
  }

  function Group(h: nat, i: nat): nat
    requires h > 0
  {
    i / h
  }

  function Slot(h: nat, i: nat): nat
    requires h > 0
  {
    i % h
  }

  lemma SplitAt(h: nat, a: nat, b: nat)
    requires b < h
    ensures Group(h, At(h, a, b)) == a && Slot(h, At(h, a, b)) == b
  {
    var n := a * h + b;
    var q, r := n / h, n % h;
    assert q * h + r == n;
    if q < a {
      MulStrict(h, q, a);
    } else if q > a {
      MulStrict(h, a, q);
    }
  }

  lemma AtSplit(h: nat, i: nat, m: nat)
    requires h > 0 && i < m * h
    ensures Group(h, i) < m && Slot(h, i) < h && i == At(h, Group(h, i), Slot(h, i))
  {
    var q := i / h;
    if q >= m {
      MulMonotone(h, m, q);
    }
  }

  lemma AtBound(h: nat, a: nat, b: nat, m: nat)
    requires a < m && b < h
    ensures At(h, a, b) < m * h
  {
    MulStrict(h, a, m);
  }

  lemma AtNext(h: nat, a: nat, b: nat)
    ensures At(h, a, b + 1) == At(h, a, b) + 1 && At(h, a + 1, 0) == At(h, a, h)
    ensures At(h, 0, 0) == 0
  {
    assert (a + 1) * h == a * h + h;
  }

  // ---- the allocators ---------------------------------------------------

  function SubnetAt(n: nat): nat {
    P2P_BASE + 4 * n
  }

  /** The first host of the n-th /30. */
  function LowEnd(n: nat): Link {
    Link(SubnetAt(n) + 1, SubnetAt(n))
  }

  /** The second host of the n-th /30. */
  function HighEnd(n: nat): Link {
    Link(SubnetAt(n) + 2, SubnetAt(n))
  }

  class SubnetAllocator {
    var it: nat

    constructor ()
      ensures it == 0
    {
      it := 0;
    }

    /** The two hosts and the prefix of the next /30; none when the base network is used up. */
    method NextP2p() returns (r: Option<(nat, nat, nat)>)
      requires it <= P2P_SUBNETS
      modifies this
      ensures it == old(it) + (if r.Some? then 1 else 0) <= P2P_SUBNETS
      ensures r.Some? <==> old(it) < P2P_SUBNETS
      ensures r.Some? ==> Link(r.value.0, r.value.2) == LowEnd(old(it))
      ensures r.Some? ==> Link(r.value.1, r.value.2) == HighEnd(old(it))
    {
      if it == P2P_SUBNETS {
        return None;
      }
      var subnet := P2P_BASE + 4 * it;
      it := it + 1;
      return Some((subnet + 1, subnet + 2, subnet));
    }
  }

  class LoopbackAllocator {
    var i: nat

    constructor ()
      ensures i == LOOPBACK_BASE + 1
    {
      i := LOOPBACK_BASE + 1;
    }

    /** The next address; none when it no longer fits 32 bits. */
    method Next() returns (r: Option<nat>)
      modifies this
      ensures r == (if old(i) < ADDRESS_SPACE then Some(old(i)) else None)
      ensures i == old(i) + (if r.Some? then 1 else 0)
    {
      if i >= ADDRESS_SPACE {
        return None;
      }
      r := Some(i);
      i := i + 1;
    }

    /** One list comprehension `[lo_alloc.next() for _ in range(n)]`. */
    method Take(n: nat) returns (r: Option<seq<nat>>)
      requires LOOPBACK_BASE < i
      modifies this
      ensures r.Some? <==> n == 0 || old(i) + n <= ADDRESS_SPACE
      ensures r.Some? ==> r.value == seq(n, j requires 0 <= j < n => old(i) + j) && i == old(i) + n
    {
      var taken: seq<nat> := [];
      for j := 0 to n
        invariant taken == seq(j, x requires 0 <= x < j => old(i) + x) && i == old(i) + j
        invariant j == 0 || old(i) + j <= ADDRESS_SPACE
      {
        var a := Next();
        if a.None? {
          return None;
        }
        taken := taken + [a.value];
      }
      r := Some(taken);
    }
  }

  // ---- the closed form --------------------------------------------------

  /** The core that agg `i` of the fabric is wired to: `g * half + pod % half`. */
  function CoreOf(h: nat, i: nat): nat
    requires h > 0
  {
    At(h, Slot(h, i), Slot(h, Group(h, i)))
  }

  /** The first of the two aggs wired to core `c`; the second comes `h * h` later. */
  function FirstAgg(h: nat, c: nat): nat
    requires h > 0
  {
    At(h, Slot(h, c), Group(h, c))
  }

  /** The links of core `c` when the first `n` core links are laid. */
  function CoreList(h: nat, c: nat, n: nat): seq<Link>
    requires h > 0
  {
    var f := FirstAgg(h, c);
    (if f < n then [LowEnd(f)] else []) + (if f + h * h < n then [LowEnd(f + h * h)] else [])
  }

  /** The number of the link from agg `i` to the e-th edge of its pod. */
  function DownLink(h: nat, i: nat, e: nat): nat {
    2 * h * h + At(h, i, e)
  }

  /** The links of agg `i`: one up, then the first `n` of those down to its pod. */
  function AggList(h: nat, i: nat, n: nat): seq<Link> {
    [HighEnd(i)] + seq(n, e requires 0 <= e < n => LowEnd(DownLink(h, i, e)))
  }

  /** The links of edge `j`: one from each of the first `n` aggs of its pod. */
  function EdgeList(h: nat, j: nat, n: nat): seq<Link>
    requires h > 0
  {
    seq(n, a requires 0 <= a < n => HighEnd(DownLink(h, At(h, Group(h, j), a), Slot(h, j))))
  }

  function Loopbacks(from: nat, n: nat): seq<nat> {
    seq(n, j requires 0 <= j < n => LOOPBACK_BASE + 1 + from + j)
  }

  /** The fabric for k = 2 h. */
  function FabricOf(h: nat): Fabric
    requires h > 0
  {
    Fabric(
      Loopbacks(0, h * h), Loopbacks(h * h, 2 * h * h), Loopbacks(3 * h * h, 2 * h * h),
      seq(h * h, c requires 0 <= c < h * h => CoreList(h, c, 2 * h * h)),
      seq(2 * h * h, i requires 0 <= i < 2 * h * h => AggList(h, i, h)),
      seq(2 * h * h, j requires 0 <= j < 2 * h * h => EdgeList(h, j, h)))
  }

  /** All links of the fabric: one per agg up and h per agg down. */
  function LinkCount(h: nat): nat {
    2 * h * h + 2 * h * h * h
  }

  function Expected(k: int): Outcome {
    if k % 2 != 0 || k < 4 then Failed(BadK)
    else if LOOPBACK_BASE + 1 + 5 * (k / 2) * (k / 2) > ADDRESS_SPACE then Failed(AddressOverflow)
    else if LinkCount(k / 2) > P2P_SUBNETS then Failed(SubnetsExhausted)
    else Generated(FabricOf(k / 2))
  }

  // ---- wiring cores -----------------------------------------------------

  ghost predicate CoresWired(h: nat, core: seq<seq<Link>>, agg: seq<seq<Link>>, n: nat)
    requires h > 0
  {
    && |core| == h * h && |agg| == 2 * h * h
    && (forall c :: 0 <= c < h * h ==> core[c] == CoreList(h, c, n))
    && (forall i :: 0 <= i < 2 * h * h ==> agg[i] == if i < n then [HighEnd(i)] else [])
  }

  /** Two pods share each residue modulo k/2. */
  lemma HalfPods(h: nat, pod: nat)
    requires h > 0 && pod < 2 * h
    ensures Slot(h, pod) == if pod < h then pod else pod - h
  {
    if pod < h {
      SplitAt(h, 0, pod);
    } else {
      SplitAt(h, 1, pod - h);
    }
  }

  lemma AtShift(h: nat, q: nat, g: nat)
    ensures At(h, q + h, g) == At(h, q, g) + h * h
  {
    assert (q + h) * h == q * h + h * h;
  }

  /** Core link `n` is the first or the second link of core `CoreOf(n)`. */
  lemma CoreOfAgg(h: nat, n: nat)
    requires h > 0 && n < 2 * h * h
    ensures CoreOf(h, n) < h * h
    ensures n == FirstAgg(h, CoreOf(h, n)) + if Group(h, n) < h then 0 else h * h
  {
    hide At, Group, Slot;
    AtSplit(h, n, 2 * h);
    var pod, g := Group(h, n), Slot(h, n);
    HalfPods(h, pod);
    var q := Slot(h, pod);
    AtBound(h, g, q, h);
    SplitAt(h, g, q);
    AtShift(h, q, g);
  }

  lemma AggOfCore(h: nat, c: nat)
    requires h > 0 && c < h * h
    ensures var f := FirstAgg(h, c);
            && f < h * h
            && CoreOf(h, f) == c && CoreOf(h, f + h * h) == c
            && Group(h, f) == Slot(h, c) && Group(h, f + h * h) == Slot(h, c) + h
            && Slot(h, f) == Group(h, c) && Slot(h, f + h * h) == Group(h, c)
            && Slot(h, c) < h && Group(h, c) < h && c == At(h, Group(h, c), Slot(h, c))
  {
    hide At, Group, Slot;
    AtSplit(h, c, h);
    var r, s := Slot(h, c), Group(h, c);
    AtBound(h, r, s, h);
    SplitAt(h, r, s);
    SplitAt(h, r + h, s);
    AtShift(h, r, s);
    HalfPods(h, r);
    HalfPods(h, r + h);
  }

  lemma CoreOfFirstAgg(h: nat, c: nat, n: nat)
    requires h > 0 && c < h * h && n < 2 * h * h
    ensures CoreOf(h, n) < h * h
    ensures c == CoreOf(h, n) <==> n == FirstAgg(h, c) || n == FirstAgg(h, c) + h * h
  {
    hide CoreOf, FirstAgg, At, Group, Slot;
    CoreOfAgg(h, n);
    AggOfCore(h, c);
  }

  lemma CoreListStep(h: nat, c: nat, n: nat)
    requires h > 0 && c < h * h && n < 2 * h * h
    ensures CoreList(h, c, n + 1) == CoreList(h, c, n) + if c == CoreOf(h, n) then [LowEnd(n)] else []
  {
    hide CoreOf, FirstAgg, LowEnd;
    CoreOfFirstAgg(h, c, n);
    assert h * h > 0;
  }

  lemma CoreStep(h: nat, core: seq<seq<Link>>, agg: seq<seq<Link>>, n: nat)
    requires h > 0 && n < 2 * h * h && CoresWired(h, core, agg, n)
    ensures CoreOf(h, n) < h * h
    ensures CoresWired(h, core[CoreOf(h, n) := core[CoreOf(h, n)] + [LowEnd(n)]],
                       agg[n := agg[n] + [HighEnd(n)]], n + 1)
  {
    hide CoreOf, LowEnd, HighEnd, CoreList;
    CoreOfFirstAgg(h, 0, n) by {
      assert h * h > 0;
    }
    forall c | 0 <= c < h * h
      ensures CoreList(h, c, n + 1) == CoreList(h, c, n) + if c == CoreOf(h, n) then [LowEnd(n)] else []
    {
      CoreListStep(h, c, n);
    }
  }

  /** The first wiring loop; none when the /30s run out. */
  method WireCores(k: nat, h: nat, p2p: SubnetAllocator) returns (r: Option<(seq<seq<Link>>, seq<seq<Link>>)>)
    requires k == 2 * h && h > 1 && p2p.it == 0
    modifies p2p
    ensures r.Some? <==> 2 * h * h <= P2P_SUBNETS
    ensures r.Some? ==> CoresWired(h, r.value.0, r.value.1, 2 * h * h) && p2p.it == 2 * h * h
  {
    hide CoresWired, LowEnd, HighEnd, CoreOf, At, Group, Slot;
    var core := seq(h * h, _ => []);
    var agg := seq(k * h, _ => []);
    NoneWired(h, core, agg);
    AtNext(h, 0, 0);
    for pod := 0 to k
      invariant p2p.it == At(h, pod, 0) <= P2P_SUBNETS && CoresWired(h, core, agg, At(h, pod, 0))
    {
      for g := 0 to h
        invariant p2p.it == At(h, pod, g) <= P2P_SUBNETS && CoresWired(h, core, agg, At(h, pod, g))
      {
        var aggIdx := At(h, pod, g);
        var cIdx := At(h, g, pod % h);
        AtBound(h, pod, g, k);
        AtNext(h, pod, g);
        CoreStep(h, core, agg, aggIdx);
        CoreIndex(h, pod, g);
        WiredSizes(h, core, agg, aggIdx);
        var subnet := p2p.NextP2p();
        if subnet.None? {
          return None;
        }
        core := core[cIdx := core[cIdx] + [Link(subnet.value.0, subnet.value.2)]];
        agg := agg[aggIdx := agg[aggIdx] + [Link(subnet.value.1, subnet.value.2)]];
      }
      AtNext(h, pod, h);
    }
    AtEnd(h);
    r := Some((core, agg));
  }

  lemma AtEnd(h: nat)
    ensures At(h, 2 * h, 0) == 2 * h * h
  {
  }

  lemma NoneWired(h: nat, core: seq<seq<Link>>, agg: seq<seq<Link>>)
    requires h > 0 && core == seq(h * h, _ => []) && agg == seq(2 * h * h, _ => [])
    ensures CoresWired(h, core, agg, 0)
  {
  }

  lemma WiredSizes(h: nat, core: seq<seq<Link>>, agg: seq<seq<Link>>, n: nat)
    requires h > 0 && CoresWired(h, core, agg, n)
    ensures |core| == h * h && |agg| == 2 * h * h
  {
  }

  lemma CoreIndex(h: nat, pod: nat, g: nat)
    requires g < h
    ensures CoreOf(h, At(h, pod, g)) == At(h, g, pod % h)
  {
    SplitAt(h, pod, g);
  }

  // ---- wiring edges -----------------------------------------------------

  /** Agg lists when aggs before `t` have all their down links and agg `t` has `e` of them. */
  ghost predicate AggsWired(h: nat, agg: seq<seq<Link>>, t: nat, e: nat) {
    && |agg| == 2 * h * h
    && forall i :: 0 <= i < 2 * h * h ==> agg[i] == AggList(h, i, if i < t then h else if i == t then e else 0)
  }

  /** How many aggs of its pod edge `j` is wired to when the loops stand at (pod, a, e). */
  function EdgeDone(h: nat, j: nat, pod: nat, a: nat, e: nat): nat
    requires h > 0
  {
    if Group(h, j) < pod then h
    else if Group(h, j) > pod then 0
    else if Slot(h, j) < e then a + 1 else a
  }

  ghost predicate EdgesWired(h: nat, edge: seq<seq<Link>>, pod: nat, a: nat, e: nat)
    requires h > 0
  {
    && |edge| == 2 * h * h
    && forall j :: 0 <= j < 2 * h * h ==> edge[j] == EdgeList(h, j, EdgeDone(h, j, pod, a, e))
  }

  lemma AggStep(h: nat, agg: seq<seq<Link>>, t: nat, e: nat)
    requires h > 0 && t < 2 * h * h && AggsWired(h, agg, t, e)
    ensures AggsWired(h, agg[t := agg[t] + [LowEnd(DownLink(h, t, e))]], t, e + 1)
  {
    hide LowEnd, HighEnd, DownLink;
    assert AggList(h, t, e + 1) == AggList(h, t, e) + [LowEnd(DownLink(h, t, e))];
  }

  lemma EdgeListStep(h: nat, pod: nat, a: nat, e: nat)
    requires e < h
    ensures EdgeList(h, At(h, pod, e), a + 1)
         == EdgeList(h, At(h, pod, e), a) + [HighEnd(DownLink(h, At(h, pod, a), e))]
  {
    hide At, Group, Slot, HighEnd, DownLink;
    SplitAt(h, pod, e);
  }

  lemma EdgeStep(h: nat, edge: seq<seq<Link>>, pod: nat, a: nat, e: nat)
    requires e < h && At(h, pod, e) < 2 * h * h && EdgesWired(h, edge, pod, a, e)
    ensures var j := At(h, pod, e);
            EdgesWired(h, edge[j := edge[j] + [HighEnd(DownLink(h, At(h, pod, a), e))]], pod, a, e + 1)
  {
    hide At, Group, Slot, EdgeList, HighEnd, DownLink;
    var j := At(h, pod, e);
    SplitAt(h, pod, e);
    EdgeListStep(h, pod, a, e);
    forall i | 0 <= i < 2 * h * h && i != j
      ensures EdgeDone(h, i, pod, a, e + 1) == EdgeDone(h, i, pod, a, e)
    {
      AtSplit(h, i, 2 * h);
    }
  }

  /** A finished inner loop is the start of the next one. */
  lemma EdgeRowDone(h: nat, edge: seq<seq<Link>>, pod: nat, a: nat)
    requires h > 0 && EdgesWired(h, edge, pod, a, h)
    ensures EdgesWired(h, edge, pod, a + 1, 0)
    ensures a + 1 == h ==> EdgesWired(h, edge, pod + 1, 0, 0)
  {
    hide EdgeList;
    forall j | 0 <= j < 2 * h * h
      ensures EdgeDone(h, j, pod, a, h) == EdgeDone(h, j, pod, a + 1, 0)
      ensures a + 1 == h ==> EdgeDone(h, j, pod, a, h) == EdgeDone(h, j, pod + 1, 0, 0)
    {
      assert Slot(h, j) < h;
    }
  }

  lemma AggRowDone(h: nat, agg: seq<seq<Link>>, t: nat)
    requires h > 0 && AggsWired(h, agg, t, h)
    ensures AggsWired(h, agg, t + 1, 0)
  {
    hide AggList;
  }

  lemma EdgesStart(h: nat, agg: seq<seq<Link>>, edge: seq<seq<Link>>)
    requires h > 0 && |agg| == 2 * h * h && forall i :: 0 <= i < 2 * h * h ==> agg[i] == [HighEnd(i)]
    requires edge == seq(2 * h * h, _ => [])
    ensures AggsWired(h, agg, 0, 0) && EdgesWired(h, edge, 0, 0, 0)
  {
    forall i | 0 <= i < 2 * h * h ensures agg[i] == AggList(h, i, 0) {
    }
    forall j | 0 <= j < 2 * h * h ensures edge[j] == EdgeList(h, j, 0) && EdgeDone(h, j, 0, 0, 0) == 0 {
    }
  }

  /** The second wiring loop, from aggs that hold their up link; none when the /30s run out. */
  method WireEdges(k: nat, h: nat, p2p: SubnetAllocator, aggUp: seq<seq<Link>>)
    returns (r: Option<(seq<seq<Link>>, seq<seq<Link>>)>)
    requires k == 2 * h && h > 1 && p2p.it == 2 * h * h <= P2P_SUBNETS
    requires |aggUp| == 2 * h * h && forall i :: 0 <= i < 2 * h * h ==> aggUp[i] == [HighEnd(i)]
    modifies p2p
    ensures r.Some? <==> LinkCount(h) <= P2P_SUBNETS
    ensures r.Some? ==> AggsWired(h, r.value.0, 2 * h * h, 0) && EdgesWired(h, r.value.1, 2 * h, 0, 0)
  {
    hide AggsWired, EdgesWired, LowEnd, HighEnd, DownLink, At, Group, Slot;
    var agg := aggUp;
    var edge := seq(k * h, _ => []);
    EdgesStart(h, agg, edge);
    DownLinkEnd(h);
    AtNext(h, 0, 0);
    for pod := 0 to k
      invariant p2p.it == DownLink(h, At(h, pod, 0), 0) <= P2P_SUBNETS
      invariant AggsWired(h, agg, At(h, pod, 0), 0) && EdgesWired(h, edge, pod, 0, 0)
    {
      for a := 0 to h
        invariant p2p.it == DownLink(h, At(h, pod, a), 0) <= P2P_SUBNETS
        invariant AggsWired(h, agg, At(h, pod, a), 0) && EdgesWired(h, edge, pod, a, 0)
        invariant a == h ==> EdgesWired(h, edge, pod + 1, 0, 0)
      {
        var aggIdx := At(h, pod, a);
        AtBound(h, pod, a, k);
        for e := 0 to h
          invariant p2p.it == DownLink(h, aggIdx, e) <= P2P_SUBNETS
          invariant AggsWired(h, agg, aggIdx, e) && EdgesWired(h, edge, pod, a, e)
        {
          var edgeIdx := At(h, pod, e);
          AtBound(h, pod, e, k);
          DownLinkNext(h, aggIdx, e);
          AggStep(h, agg, aggIdx, e);
          EdgeStep(h, edge, pod, a, e);
          WiredEdgeSizes(h, agg, edge, aggIdx, pod, a, e);
          var subnet := p2p.NextP2p();
          if subnet.None? {
            return None;
          }
          agg := agg[aggIdx := agg[aggIdx] + [Link(subnet.value.0, subnet.value.2)]];
          edge := edge[edgeIdx := edge[edgeIdx] + [Link(subnet.value.1, subnet.value.2)]];
        }
        DownLinkRow(h, aggIdx);
        AtNext(h, pod, a);
        AggRowDone(h, agg, aggIdx);
        EdgeRowDone(h, edge, pod, a);
      }
      AtNext(h, pod, h);
    }
    AtEnd(h);
    DownLinkEnd(h);
    r := Some((agg, edge));
  }

  lemma WiredEdgeSizes(h: nat, agg: seq<seq<Link>>, edge: seq<seq<Link>>, t: nat, pod: nat, a: nat, e: nat)
    requires h > 0 && AggsWired(h, agg, t, e) && EdgesWired(h, edge, pod, a, e)
    ensures |agg| == |edge| == 2 * h * h
  {
  }

  /** Down links are numbered without gaps, below the link count. */
  lemma DownLinkNext(h: nat, i: nat, e: nat)
    requires i < 2 * h * h && e < h
    ensures DownLink(h, i, e + 1) == DownLink(h, i, e) + 1
    ensures DownLink(h, i, e) < LinkCount(h)
  {
    AtBound(h, i, e, 2 * h * h);
  }

  lemma DownLinkRow(h: nat, i: nat)
    ensures DownLink(h, i, h) == DownLink(h, i + 1, 0)
  {
    AtNext(h, i, h);
  }

  lemma DownLinkEnd(h: nat)
    ensures DownLink(h, 2 * h * h, 0) == LinkCount(h) && DownLink(h, 0, 0) == 2 * h * h
  {
  }

  // ---- the generator ----------------------------------------------------

  /** The three loopback lists, core first; none when the addresses leave the 32-bit space. */
  method TakeLoopbacks(h: nat) returns (r: Option<(seq<nat>, seq<nat>, seq<nat>)>)
    requires h > 0
    ensures r.Some? <==> LOOPBACK_BASE + 1 + 5 * h * h <= ADDRESS_SPACE
    ensures r.Some? ==> r.value == (Loopbacks(0, h * h), Loopbacks(h * h, 2 * h * h), Loopbacks(3 * h * h, 2 * h * h))
  {
    var n := h * h;
    assert n > 0 && 2 * h * h == 2 * n && 3 * h * h == 3 * n && 5 * h * h == 5 * n;
    var loopbacks := new LoopbackAllocator();
    var core := loopbacks.Take(n);
    if core.None? {
      return None;
    }
    var agg := loopbacks.Take(2 * n);
    if agg.None? {
      return None;
    }
    var edge := loopbacks.Take(2 * n);
    if edge.None? {
      return None;
    }
    assert core.value == Loopbacks(0, n) && agg.value == Loopbacks(n, 2 * n) && edge.value == Loopbacks(3 * n, 2 * n);
    r := Some((core.value, agg.value, edge.value));
  }

  lemma UpLinksFit(h: nat)
    ensures 2 * h * h <= LinkCount(h)
  {
    MulMonotone(h, 0, 2 * h * h);
  }

  lemma CoresWiredUp(h: nat, core: seq<seq<Link>>, agg: seq<seq<Link>>)
    requires h > 0 && CoresWired(h, core, agg, 2 * h * h)
    ensures |agg| == 2 * h * h && forall i :: 0 <= i < 2 * h * h ==> agg[i] == [HighEnd(i)]
  {
  }

  lemma FabricAssembled(h: nat, core: seq<seq<Link>>, up: seq<seq<Link>>, agg: seq<seq<Link>>, edge: seq<seq<Link>>)
    requires h > 0 && CoresWired(h, core, up, 2 * h * h)
    requires AggsWired(h, agg, 2 * h * h, 0) && EdgesWired(h, edge, 2 * h, 0, 0)
    ensures FabricOf(h) == Fabric(Loopbacks(0, h * h), Loopbacks(h * h, 2 * h * h), Loopbacks(3 * h * h, 2 * h * h),
                                  core, agg, edge)
  {
    hide CoreList, AggList, EdgeList, Loopbacks;
    forall j | 0 <= j < 2 * h * h ensures EdgeDone(h, j, 2 * h, 0, 0) == h {
      AtSplit(h, j, 2 * h);
    }
  }

  /** The whole generator: its result is the closed form, or the error it raises. */
  method GenerateFatTree(k: int) returns (r: Outcome)
    ensures r == Expected(k)
  {
    if k % 2 != 0 || k < 4 {
      return Failed(BadK);
    }
    hide FabricOf, LinkCount, Loopbacks, CoresWired, AggsWired, EdgesWired, HighEnd;
    var half: nat := k / 2;
    var loopbacks := TakeLoopbacks(half);
    if loopbacks.None? {
      return Failed(AddressOverflow);
    }
    var p2p := new SubnetAllocator();
    UpLinksFit(half);
    var wired := WireCores(k, half, p2p);
    if wired.None? {
      return Failed(SubnetsExhausted);
    }
    CoresWiredUp(half, wired.value.0, wired.value.1);
    var complete := WireEdges(k, half, p2p, wired.value.1);
    if complete.None? {
      return Failed(SubnetsExhausted);
    }
    FabricAssembled(half, wired.value.0, wired.value.1, complete.value.0, complete.value.1);
    r := Generated(Fabric(loopbacks.value.0, loopbacks.value.1, loopbacks.value.2,
                          wired.value.0, complete.value.0, complete.value.1));
  }
}

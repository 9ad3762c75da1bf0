/** Degrees, addressing and reachability of the generated fat-tree, for every even k. */
module FatTreeLaws {
  import opened FatTree

  datatype Switch = Core(i: nat) | Agg(i: nat) | Edge(i: nat)

  /** An interface: a switch and a position in its link list. */
  datatype Port = Port(switch: Switch, j: nat)

  predicate IsSwitch(h: nat, s: Switch) {
    match s
    case Core(c) => c < h * h
    case Agg(i) => i < 2 * h * h
    case Edge(i) => i < 2 * h * h
  }

  function LinksOf(h: nat, s: Switch): seq<Link>
    requires h > 0 && IsSwitch(h, s)
  {
    match s
    case Core(c) => FabricOf(h).coreLinks[c]
    case Agg(i) => FabricOf(h).aggLinks[i]
    case Edge(i) => FabricOf(h).edgeLinks[i]
  }

  function Degree(h: nat, s: Switch): nat {
    match s
    case Core(_) => 2
    case Agg(_) => 1 + h
    case Edge(_) => h
  }

  // ---- which /30 a port sits in -----------------------------------------

  /** One end of a point-to-point link: the link's number and whether it is the low address. */
  datatype End = End(n: nat, low: bool) {
    function AsLink(): Link {
      if low then LowEnd(n) else HighEnd(n)
    }
  }

  function EndAt(h: nat, p: Port): End
    requires h > 0
  {
    match p.switch
    case Core(c) => End(if p.j == 0 then FirstAgg(h, c) else FirstAgg(h, c) + h * h, true)
    case Agg(i) => if p.j == 0 then End(i, false) else End(DownLink(h, i, p.j - 1), true)
    case Edge(i) => End(DownLink(h, At(h, Group(h, i), p.j), Slot(h, i)), false)
  }

  predicate IsPort(h: nat, p: Port)
    requires h > 0
  {
    IsSwitch(h, p.switch) && p.j < Degree(h, p.switch)
  }

  /** The port that holds one end of link `n`. */
  function PortOf(h: nat, e: End): Port
    requires h > 0
  {
    if e.n < 2 * h * h then
      if e.low then Port(Core(CoreOf(h, e.n)), if Group(h, e.n) < h then 0 else 1) else Port(Agg(e.n), 0)
    else
      var m := e.n - 2 * h * h;
      var agg := Group(h, m);
      if e.low then Port(Agg(agg), 1 + Slot(h, m)) else Port(Edge(At(h, Group(h, agg), Slot(h, m))), Slot(h, agg))
  }

  lemma UpLinkCount(h: nat, n: nat)
    requires n < 2 * h * h
    ensures n < LinkCount(h)
  {
    UpLinksFit(h);
  }

  lemma CoreLinks(h: nat, c: nat)
    requires h > 0 && c < h * h
    ensures LinksOf(h, Core(c)) == [LowEnd(FirstAgg(h, c)), LowEnd(FirstAgg(h, c) + h * h)]
    ensures FirstAgg(h, c) + h * h < 2 * h * h
  {
    AggOfCore(h, c);
    hide FirstAgg;
  }

  lemma AggLinks(h: nat, i: nat)
    requires h > 0 && i < 2 * h * h
    ensures LinksOf(h, Agg(i)) == AggList(h, i, h)
  {
  }

  lemma EdgeLinks(h: nat, i: nat)
    requires h > 0 && i < 2 * h * h
    ensures LinksOf(h, Edge(i)) == EdgeList(h, i, h)
  {
  }

  /** The link list of a switch has its degree's length and holds the ends of its ports. */
  lemma LinkAtPort(h: nat, p: Port)
    requires h > 1 && IsPort(h, p)
    ensures |LinksOf(h, p.switch)| == Degree(h, p.switch)
    ensures LinksOf(h, p.switch)[p.j] == EndAt(h, p).AsLink()
    ensures EndAt(h, p).n < LinkCount(h)
  {
    hide LinksOf, FirstAgg, DownLink, LinkCount, At, Group, Slot, LowEnd, HighEnd;
    match p.switch
    case Core(c) =>
      CoreLinks(h, c);
      UpLinkCount(h, EndAt(h, p).n);
    case Agg(i) =>
      AggLinks(h, i);
      if p.j == 0 {
        UpLinkCount(h, i);
      } else {
        DownLinkNext(h, i, p.j - 1);
      }
    case Edge(i) =>
      EdgeLinks(h, i);
      AtSplit(h, i, 2 * h);
      AtBound(h, Group(h, i), p.j, 2 * h);
      DownLinkNext(h, At(h, Group(h, i), p.j), Slot(h, i));
  }

  /** Degrees: 2 for a core, 1 + k/2 for an agg, k/2 for an edge. */
  lemma Degrees(h: nat, s: Switch)
    requires h > 1 && IsSwitch(h, s)
    ensures |LinksOf(h, s)| == Degree(h, s)
  {
    LinkAtPort(h, Port(s, 0));
  }

  lemma DownLinkIndex(h: nat, i: nat, e: nat)
    requires e < h
    ensures DownLink(h, i, e) >= 2 * h * h
    ensures Group(h, DownLink(h, i, e) - 2 * h * h) == i && Slot(h, DownLink(h, i, e) - 2 * h * h) == e
  {
    SplitAt(h, i, e);
  }

  lemma PortOfCoreEnd(h: nat, c: nat, j: nat)
    requires h > 1 && IsPort(h, Port(Core(c), j))
    ensures PortOf(h, EndAt(h, Port(Core(c), j))) == Port(Core(c), j)
  {
    hide FirstAgg, CoreOf, At, Group, Slot;
    AggOfCore(h, c);
    assert FirstAgg(h, c) + h * h < 2 * h * h;
    if j == 0 {
      assert EndAt(h, Port(Core(c), j)) == End(FirstAgg(h, c), true);
    } else {
      assert EndAt(h, Port(Core(c), j)) == End(FirstAgg(h, c) + h * h, true);
    }
  }

  lemma PortOfAggEnd(h: nat, i: nat, j: nat)
    requires h > 1 && IsPort(h, Port(Agg(i), j))
    ensures PortOf(h, EndAt(h, Port(Agg(i), j))) == Port(Agg(i), j)
  {
    hide DownLink, CoreOf, At, Group, Slot;
    if j > 0 {
      DownLinkIndex(h, i, j - 1);
    }
  }

  lemma PortOfEdgeEnd(h: nat, i: nat, j: nat)
    requires h > 1 && IsPort(h, Port(Edge(i), j))
    ensures PortOf(h, EndAt(h, Port(Edge(i), j))) == Port(Edge(i), j)
  {
    hide DownLink, CoreOf, At, Group, Slot;
    AtSplit(h, i, 2 * h);
    DownLinkIndex(h, At(h, Group(h, i), j), Slot(h, i));
    SplitAt(h, Group(h, i), j);
  }

  /** Ports and link ends are in one-to-one correspondence. */
  lemma PortOfEnd(h: nat, p: Port)
    requires h > 1 && IsPort(h, p)
    ensures PortOf(h, EndAt(h, p)) == p
  {
    hide PortOf, EndAt, IsPort;
    match p.switch
    case Core(c) =>
      PortOfCoreEnd(h, c, p.j);
    case Agg(i) =>
      PortOfAggEnd(h, i, p.j);
    case Edge(i) =>
      PortOfEdgeEnd(h, i, p.j);
  }

  /** The agg and edge coordinates of a down link. */
  lemma DownLinkSplit(h: nat, n: nat)
    requires h > 0 && 2 * h * h <= n < LinkCount(h)
    ensures var m := n - 2 * h * h;
            && Group(h, m) < 2 * h * h && Slot(h, m) < h && n == DownLink(h, Group(h, m), Slot(h, m))
            && Group(h, Group(h, m)) < 2 * h && Slot(h, Group(h, m)) < h
            && Group(h, m) == At(h, Group(h, Group(h, m)), Slot(h, Group(h, m)))
  {
    var m := n - 2 * h * h;
    assert m < (2 * h * h) * h;
    AtSplit(h, m, 2 * h * h);
    AtSplit(h, Group(h, m), 2 * h);
  }

  lemma EndOfPort(h: nat, e: End)
    requires h > 1 && e.n < LinkCount(h)
    ensures IsPort(h, PortOf(h, e)) && EndAt(h, PortOf(h, e)) == e
  {
    hide FirstAgg, CoreOf, DownLink, LinkCount, At, Group, Slot;
    if e.n < 2 * h * h {
      CoreOfAgg(h, e.n);
    } else {
      DownLinkSplit(h, e.n);
      var m := e.n - 2 * h * h;
      var pod := Group(h, Group(h, m));
      AtBound(h, pod, Slot(h, m), 2 * h);
      SplitAt(h, pod, Slot(h, m));
    }
  }

  lemma EndOfIp(e: End, f: End)
    ensures e.AsLink().ip == f.AsLink().ip <==> e == f
    ensures e.AsLink().subnet == f.AsLink().subnet <==> e.n == f.n
  {
  }

  lemma EndsOnTwoSwitches(h: nat, n: nat)
    requires h > 0
    ensures PortOf(h, End(n, true)).switch != PortOf(h, End(n, false)).switch
  {
    hide CoreOf, At, Group, Slot;
  }

  /** Every /30 of the fabric has exactly two interfaces, its two hosts, on the two ports `PortOf` names. */
  lemma LinkHasTwoEnds(h: nat, n: nat)
    requires h > 1 && n < LinkCount(h)
    ensures var a, b := PortOf(h, End(n, true)), PortOf(h, End(n, false));
            && IsPort(h, a) && IsPort(h, b) && a.switch != b.switch
            && |LinksOf(h, a.switch)| == Degree(h, a.switch) && |LinksOf(h, b.switch)| == Degree(h, b.switch)
            && LinksOf(h, a.switch)[a.j] == LowEnd(n) && LinksOf(h, b.switch)[b.j] == HighEnd(n)
            && forall p :: IsPort(h, p) && EndAt(h, p).n == n ==> p == a || p == b
  {
    hide LinksOf, PortOf, EndAt, LinkCount;
    EndOfPort(h, End(n, true));
    EndOfPort(h, End(n, false));
    assert PortOf(h, End(n, true)).switch != PortOf(h, End(n, false)).switch by {
      EndsOnTwoSwitches(h, n);
    }
    LinkAtPort(h, PortOf(h, End(n, true)));
    LinkAtPort(h, PortOf(h, End(n, false)));
    forall p | IsPort(h, p) && EndAt(h, p).n == n
      ensures p == PortOf(h, End(n, true)) || p == PortOf(h, End(n, false))
    {
      PortOfEnd(h, p);
      assert EndAt(h, p) == End(n, true) || EndAt(h, p) == End(n, false);
    }
  }

  /** No two interfaces of the fabric share an address. */
  lemma InterfaceAddressesDistinct(h: nat, p: Port, q: Port)
    requires h > 1 && IsPort(h, p) && IsPort(h, q)
    ensures |LinksOf(h, p.switch)| == Degree(h, p.switch) && |LinksOf(h, q.switch)| == Degree(h, q.switch)
    ensures LinksOf(h, p.switch)[p.j].ip == LinksOf(h, q.switch)[q.j].ip ==> p == q
  {
    hide LinksOf, PortOf, EndAt;
    LinkAtPort(h, p);
    LinkAtPort(h, q);
    PortOfEnd(h, p);
    PortOfEnd(h, q);
    EndOfIp(EndAt(h, p), EndAt(h, q));
  }

  // ---- address space ----------------------------------------------------

  lemma SquareCubeGrow(g: nat, h: nat)
    requires g <= h
    ensures g * g <= h * h && g * g * g <= h * h * h
  {
    MulMonotone(g, g, h);
    MulMonotone(h, g, h);
    MulMonotone(g, g * g, h * h);
    MulMonotone(h * h, g, h);
  }

  lemma LinkCountIs(h: nat)
    ensures LinkCount(h) == 2 * (h * h) + 2 * (h * h * h)
  {
  }

  lemma LinkCountGrows(g: nat, h: nat)
    requires g <= h
    ensures LinkCount(g) <= LinkCount(h)
  {
    SquareCubeGrow(g, h);
    LinkCountIs(g);
    LinkCountIs(h);
  }

  /** The generator succeeds exactly for the even k from 4 to 160. */
  lemma SucceedsUpTo160(k: int)
    ensures Expected(k).Generated? <==> k % 2 == 0 && 4 <= k <= 160
    ensures k % 2 == 0 && 4 <= k <= 160 ==> Expected(k) == Generated(FabricOf(k / 2))
  {
    if k % 2 == 0 && k >= 4 {
      var h: nat := k / 2;
      if h <= 80 {
        LinkCountGrows(h, 80);
        assert LinkCount(80) == 1_036_800;
        SquareCubeGrow(h, 80);
        assert 5 * h * h == 5 * (h * h);
      } else {
        LinkCountGrows(81, h);
        assert LinkCount(81) == 1_076_004;
      }
    }
  }

  /** In a generated fabric the /30s are disjoint and inside 10.128.0.0/10. */
  lemma SubnetsDisjointAndInside(h: nat, n: nat, m: nat)
    requires 2 <= h <= 80 && n < LinkCount(h) && m < LinkCount(h)
    ensures P2P_BASE <= SubnetAt(n) && SubnetAt(n) + 4 <= P2P_BASE + P2P_SIZE
    ensures SubnetAt(n) % 4 == 0
    ensures n != m ==> SubnetAt(n) + 4 <= SubnetAt(m) || SubnetAt(m) + 4 <= SubnetAt(n)
    ensures SubnetAt(n) < LowEnd(n).ip < HighEnd(n).ip < SubnetAt(n) + 3
  {
    SucceedsUpTo160(2 * h);
  }

  function LoopbackOf(h: nat, s: Switch): nat
    requires h > 0 && IsSwitch(h, s)
  {
    match s
    case Core(c) => FabricOf(h).coreLo[c]
    case Agg(i) => FabricOf(h).aggLo[i]
    case Edge(i) => FabricOf(h).edgeLo[i]
  }

  /** Loopbacks are distinct, inside 10.0.0.0/12 past its network address, and apart from all /30s. */
  lemma LoopbacksDistinctAndInside(h: nat, s: Switch, t: Switch)
    requires 2 <= h <= 80 && IsSwitch(h, s) && IsSwitch(h, t)
    ensures LOOPBACK_BASE < LoopbackOf(h, s) < LOOPBACK_BASE + LOOPBACK_SIZE <= P2P_BASE
    ensures LoopbackOf(h, s) == LoopbackOf(h, t) ==> s == t
  {
    hide LoopbackOf, IsSwitch;
    var n := h * h;
    assert n <= 6400 by { SquareCubeGrow(h, 80); }
    LoopbackAt(h, s);
    LoopbackAt(h, t);
    SwitchBounds(h, n, s);
    SwitchBounds(h, n, t);
  }

  lemma SwitchBounds(h: nat, n: nat, s: Switch)
    requires IsSwitch(h, s) && n == h * h
    ensures match s { case Core(c) => c < n case Agg(i) => i < 2 * n case Edge(i) => i < 2 * n }
  {
    assert 2 * h * h == 2 * n;
  }

  lemma LoopbackAt(h: nat, s: Switch)
    requires h > 0 && IsSwitch(h, s)
    ensures LoopbackOf(h, s) == LOOPBACK_BASE + 1 +
            match s { case Core(c) => c case Agg(i) => h * h + i case Edge(i) => 3 * (h * h) + i }
  {
    hide CoreList, AggList, EdgeList;
  }

  // ---- reachability -----------------------------------------------------

  /** Two switches are wired to each other when they have interfaces in one /30. */
  ghost predicate Adjacent(h: nat, s: Switch, t: Switch)
    requires h > 0
  {
    && IsSwitch(h, s) && IsSwitch(h, t) && s != t
    && exists l, m :: l in LinksOf(h, s) && m in LinksOf(h, t) && l.subnet == m.subnet
  }

  ghost predicate Path(h: nat, p: seq<Switch>)
    requires h > 0
  {
    && p != [] && (forall i :: 0 <= i < |p| ==> IsSwitch(h, p[i]))
    && forall i :: 0 <= i < |p| - 1 ==> Adjacent(h, p[i], p[i + 1])
  }

  ghost predicate Connected(h: nat, s: Switch, t: Switch)
    requires h > 0
  {
    exists p :: Path(h, p) && p[0] == s && p[|p| - 1] == t
  }

  /** A core by its index, an agg or edge by its pod, modulo k/2. */
  function Class(h: nat, s: Switch): nat
    requires h > 0
  {
    match s
    case Core(c) => Slot(h, c)
    case Agg(i) => Slot(h, Group(h, i))
    case Edge(i) => Slot(h, Group(h, i))
  }

  /** The two ends of a link are in one class. */
  lemma LinkKeepsClass(h: nat, n: nat)
    requires h > 1 && n < LinkCount(h)
    ensures Class(h, PortOf(h, End(n, true)).switch) == Class(h, PortOf(h, End(n, false)).switch)
  {
    hide LinkCount, At, Group, Slot;
    if n < 2 * h * h {
      AtSplit(h, n, 2 * h);
      HalfPods(h, Group(h, n));
      SplitAt(h, Slot(h, n), Slot(h, Group(h, n)));
    } else {
      DownLinkSplit(h, n);
      var m := n - 2 * h * h;
      SplitAt(h, Group(h, Group(h, m)), Slot(h, m));
    }
  }

  lemma AdjacentSameClass(h: nat, s: Switch, t: Switch)
    requires h > 1 && Adjacent(h, s, t)
    ensures Class(h, s) == Class(h, t)
  {
    hide LinksOf, PortOf, EndAt, LinkCount, Class;
    var l, m :| l in LinksOf(h, s) && m in LinksOf(h, t) && l.subnet == m.subnet;
    Degrees(h, s);
    Degrees(h, t);
    var i :| 0 <= i < |LinksOf(h, s)| && LinksOf(h, s)[i] == l;
    var j :| 0 <= j < |LinksOf(h, t)| && LinksOf(h, t)[j] == m;
    var p, q := Port(s, i), Port(t, j);
    LinkAtPort(h, p);
    LinkAtPort(h, q);
    var n := EndAt(h, p).n;
    EndOfIp(EndAt(h, p), EndAt(h, q));
    LinkHasTwoEnds(h, n);
    LinkKeepsClass(h, n);
  }

  lemma {:induction false} PathKeepsClass(h: nat, p: seq<Switch>)
    requires h > 1 && Path(h, p)
    ensures Class(h, p[0]) == Class(h, p[|p| - 1])
  {
    hide Class, Adjacent, IsSwitch;
    if |p| == 1 {
    } else {
      var q := p[..|p| - 1];
      forall i | 0 <= i < |q| - 1 ensures Adjacent(h, q[i], q[i + 1]) {
        assert Adjacent(h, p[i], p[i + 1]);
      }
      PathKeepsClass(h, q);
      assert Adjacent(h, p[|p| - 2], p[|p| - 1]);
      AdjacentSameClass(h, p[|p| - 2], p[|p| - 1]);
    }
  }

  lemma WiredAcross(h: nat, n: nat)
    requires h > 1 && n < LinkCount(h)
    ensures var s, t := PortOf(h, End(n, true)).switch, PortOf(h, End(n, false)).switch;
            Adjacent(h, s, t) && Adjacent(h, t, s)
  {
    hide LinksOf, PortOf, EndAt, LinkCount;
    LinkHasTwoEnds(h, n);
    assert LowEnd(n) in LinksOf(h, PortOf(h, End(n, true)).switch);
    assert HighEnd(n) in LinksOf(h, PortOf(h, End(n, false)).switch);
  }

  ghost predicate Wired(h: nat, s: Switch, t: Switch)
    requires h > 0
  {
    Adjacent(h, s, t) && Adjacent(h, t, s)
  }

  lemma CoreToAgg(h: nat, g: nat, pod: nat)
    requires h > 1 && g < h && pod < 2 * h
    ensures Wired(h, Core(At(h, g, Slot(h, pod))), Agg(At(h, pod, g)))
  {
    hide Adjacent, LinkCount, At, Group, Slot;
    var n := At(h, pod, g);
    AtBound(h, pod, g, 2 * h);
    UpLinkCount(h, n);
    SplitAt(h, pod, g);
    WiredAcross(h, n);
  }

  lemma AggToEdge(h: nat, pod: nat, a: nat, e: nat)
    requires h > 1 && pod < 2 * h && a < h && e < h
    ensures Wired(h, Agg(At(h, pod, a)), Edge(At(h, pod, e)))
  {
    hide Adjacent, LinkCount, At, Group, Slot, DownLink;
    var t := At(h, pod, a);
    AtBound(h, pod, a, 2 * h);
    DownLinkNext(h, t, e);
    DownLinkIndex(h, t, e);
    SplitAt(h, pod, a);
    WiredAcross(h, DownLink(h, t, e));
  }

  lemma JoinPaths(h: nat, r: Switch, s: Switch, t: Switch)
    requires h > 0 && Connected(h, r, s) && Connected(h, s, t)
    ensures Connected(h, r, t)
  {
    hide Adjacent, IsSwitch;
    var p :| Path(h, p) && p[0] == r && p[|p| - 1] == s;
    var q :| Path(h, q) && q[0] == s && q[|q| - 1] == t;
    var w := p + q[1..];
    assert Path(h, w) by {
      forall i | 0 <= i < |w| - 1 ensures Adjacent(h, w[i], w[i + 1]) {
        if i < |p| - 1 {
          assert Adjacent(h, p[i], p[i + 1]);
        } else {
          var j := i - (|p| - 1);
          assert Adjacent(h, q[j], q[j + 1]);
        }
      }
    }
    assert w[|w| - 1] == t;
  }

  ghost predicate Linked(h: nat, s: Switch, t: Switch)
    requires h > 0
  {
    Connected(h, s, t) && Connected(h, t, s)
  }

  lemma OneHop(h: nat, s: Switch, t: Switch)
    requires h > 0 && Wired(h, s, t)
    ensures Linked(h, s, t)
  {
    hide LinksOf;
    var there, back := [s, t], [t, s];
    assert Path(h, there) && there[0] == s && there[1] == t;
    assert Path(h, back) && back[0] == t && back[1] == s;
  }

  lemma Join(h: nat, r: Switch, s: Switch, t: Switch)
    requires h > 0 && Linked(h, r, s) && Linked(h, s, t)
    ensures Linked(h, r, t)
  {
    JoinPaths(h, r, s, t);
    JoinPaths(h, t, s, r);
  }

  /** The first edge of pod `q`. */
  function Hub(h: nat, q: nat): Switch {
    Edge(At(h, q, 0))
  }

  lemma CoreReachesHub(h: nat, g: nat, q: nat)
    requires h > 1 && g < h && q < h
    ensures Linked(h, Core(At(h, g, q)), Hub(h, q))
  {
    hide Linked, Wired, At, Group, Slot;
    HalfPods(h, q);
    CoreToAgg(h, g, q);
    AggToEdge(h, q, g, 0);
    OneHop(h, Core(At(h, g, q)), Agg(At(h, q, g)));
    OneHop(h, Agg(At(h, q, g)), Hub(h, q));
    Join(h, Core(At(h, g, q)), Agg(At(h, q, g)), Hub(h, q));
  }

  lemma AggReachesHub(h: nat, pod: nat, g: nat)
    requires h > 1 && g < h && pod < 2 * h
    ensures Linked(h, Agg(At(h, pod, g)), Hub(h, Slot(h, pod)))
  {
    hide Linked, Wired, At, Group;
    var q := Slot(h, pod);
    CoreReachesHub(h, g, q);
    CoreToAgg(h, g, pod);
    WiredBack(h, Core(At(h, g, q)), Agg(At(h, pod, g)));
    OneHop(h, Agg(At(h, pod, g)), Core(At(h, g, q)));
    Join(h, Agg(At(h, pod, g)), Core(At(h, g, q)), Hub(h, q));
  }

  lemma WiredBack(h: nat, s: Switch, t: Switch)
    requires h > 0 && Wired(h, s, t)
    ensures Wired(h, t, s)
  {
  }

  lemma EdgeReachesHub(h: nat, pod: nat, e: nat)
    requires h > 1 && e < h && pod < 2 * h
    ensures Linked(h, Edge(At(h, pod, e)), Hub(h, Slot(h, pod)))
  {
    hide Linked, Wired, At, Group, Slot;
    AggReachesHub(h, pod, 0);
    AggToEdge(h, pod, 0, e);
    WiredBack(h, Agg(At(h, pod, 0)), Edge(At(h, pod, e)));
    OneHop(h, Edge(At(h, pod, e)), Agg(At(h, pod, 0)));
    Join(h, Edge(At(h, pod, e)), Agg(At(h, pod, 0)), Hub(h, Slot(h, pod)));
  }

  /** Every switch is linked, both ways, to the first edge of the pod numbered by its class. */
  lemma ReachesHub(h: nat, s: Switch)
    requires h > 1 && IsSwitch(h, s)
    ensures Linked(h, s, Hub(h, Class(h, s)))
  {
    hide Linked, At, Group, Slot;
    match s
    case Core(c) =>
      AtSplit(h, c, h);
      CoreReachesHub(h, Group(h, c), Slot(h, c));
    case Agg(i) =>
      AtSplit(h, i, 2 * h);
      AggReachesHub(h, Group(h, i), Slot(h, i));
    case Edge(i) =>
      AtSplit(h, i, 2 * h);
      EdgeReachesHub(h, Group(h, i), Slot(h, i));
  }

  /** Two switches are joined by a path of links exactly when they are in one class. */
  lemma ConnectedIffSameClass(h: nat, s: Switch, t: Switch)
    requires h > 1 && IsSwitch(h, s) && IsSwitch(h, t)
    ensures Connected(h, s, t) <==> Class(h, s) == Class(h, t)
  {
    if Connected(h, s, t) {
      var p :| Path(h, p) && p[0] == s && p[|p| - 1] == t;
      PathKeepsClass(h, p);
    }
    if Class(h, s) == Class(h, t) {
      ReachesHub(h, s);
      ReachesHub(h, t);
      JoinPaths(h, s, Hub(h, Class(h, s)), t);
    }
  }

  // ---- component sizes --------------------------------------------------

  /** The g-th members of a component: one core, and an agg and an edge in each of its two pods. */
  function Slice(h: nat, q: nat, g: nat): set<Switch> {
    {Core(At(h, g, q)), Agg(At(h, q, g)), Agg(At(h, q + h, g)), Edge(At(h, q, g)), Edge(At(h, q + h, g))}
  }

  /** The first `n` slices of component `q`. */
  function Component(h: nat, q: nat, n: nat): set<Switch> {
    if n == 0 then {} else Component(h, q, n - 1) + Slice(h, q, n - 1)
  }

  /** The position of a switch within its component's slices. */
  function SliceIndex(h: nat, s: Switch): nat
    requires h > 0
  {
    match s
    case Core(c) => Group(h, c)
    case Agg(i) => Slot(h, i)
    case Edge(i) => Slot(h, i)
  }

  lemma SliceOf(h: nat, q: nat, g: nat, s: Switch)
    requires q < h && g < h && s in Slice(h, q, g)
    ensures IsSwitch(h, s) && Class(h, s) == q && SliceIndex(h, s) == g
  {
    hide At, Group, Slot;
    SplitAt(h, g, q);
    SplitAt(h, q, g);
    SplitAt(h, q + h, g);
    HalfPods(h, q);
    HalfPods(h, q + h);
    AtBound(h, g, q, h);
    AtBound(h, q, g, 2 * h);
    AtBound(h, q + h, g, 2 * h);
  }

  lemma SliceSize(h: nat, q: nat, g: nat)
    requires q < h && g < h
    ensures |Slice(h, q, g)| == 5
  {
    AtShift(h, q, g);
    hide At;
    assert h * h > 0;
    assert Agg(At(h, q, g)) != Agg(At(h, q + h, g));
  }

  lemma {:induction false} ComponentMember(h: nat, q: nat, n: nat, s: Switch)
    requires q < h && n <= h
    ensures s in Component(h, q, n) <==> exists g :: 0 <= g < n && s in Slice(h, q, g)
  {
    if n == 0 {
    } else {
      ComponentMember(h, q, n - 1, s);
    }
  }

  lemma {:induction false} ComponentCount(h: nat, q: nat, n: nat)
    requires h > 0 && q < h && n <= h
    ensures |Component(h, q, n)| == 5 * n
  {
    hide Slice;
    if n == 0 {
    } else {
      ComponentCount(h, q, n - 1);
      SliceSize(h, q, n - 1);
      SliceIsNew(h, q, n - 1);
    }
  }

  lemma SliceIsNew(h: nat, q: nat, n: nat)
    requires q < h && n < h
    ensures Slice(h, q, n) !! Component(h, q, n)
  {
    hide Slice, Component;
    forall s | s in Slice(h, q, n) ensures s !in Component(h, q, n) {
      SliceOf(h, q, n, s);
      ComponentMember(h, q, n, s);
      forall g | 0 <= g < n ensures s !in Slice(h, q, g) {
        if s in Slice(h, q, g) {
          SliceOf(h, q, g, s);
        }
      }
    }
  }

  lemma ClassSlice(h: nat, s: Switch)
    requires h > 0 && IsSwitch(h, s)
    ensures Class(h, s) < h && SliceIndex(h, s) < h && s in Slice(h, Class(h, s), SliceIndex(h, s))
  {
    hide At, Group, Slot;
    match s
    case Core(c) =>
      AtSplit(h, c, h);
    case Agg(i) =>
      AtSplit(h, i, 2 * h);
      HalfPods(h, Group(h, i));
    case Edge(i) =>
      AtSplit(h, i, 2 * h);
      HalfPods(h, Group(h, i));
  }

  /** The fabric falls into k/2 components of 5k/2 switches: the members of component `q` are
      exactly the switches of class `q`, which are exactly those joined to any one of them. */
  lemma Components(h: nat, q: nat, s: Switch)
    requires h > 1 && q < h
    ensures |Component(h, q, h)| == 5 * h
    ensures s in Component(h, q, h) <==> IsSwitch(h, s) && Class(h, s) == q
    ensures IsSwitch(h, s) ==> Class(h, s) < h
  {
    hide Component, Slice, Class, SliceIndex;
    ComponentCount(h, q, h);
    ComponentMember(h, q, h, s);
    if s in Component(h, q, h) {
      var g :| 0 <= g < h && s in Slice(h, q, g);
      SliceOf(h, q, g, s);
    }
    if IsSwitch(h, s) {
      ClassSlice(h, s);
    }
  }
}

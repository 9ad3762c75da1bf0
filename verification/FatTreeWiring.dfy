/** The generated fat-tree in plain numbers (topologies/_shared/fat_tree.py): which interface has which
    address, where the generator fails, and what the switches are called. */
module FatTreeWiring {
  import opened FatTree
  import opened FatTreeLaws
  import opened FatTreeNames

  // ---- interfaces -------------------------------------------------------

  /** The hosts of /30 number `n` of 10.128.0.0/10. */
  function Host(n: nat, last: nat): Link {
    Link(0x0A80_0000 + 4 * n + last, 0x0A80_0000 + 4 * n)
  }

  lemma EndsAreHosts(n: nat)
    ensures LowEnd(n) == Host(n, 1) && HighEnd(n) == Host(n, 2)
  {
  }

  /** Agg `g` of a pod and core `g * h + pod % h` share /30 number `pod * h + g`: the core has the first
      host on its interface for that half of the pods, the agg the second on its first interface. */
  lemma UpLinkWired(h: nat, pod: nat, g: nat)
    requires h > 1 && pod < 2 * h && g < h
    ensures
      var fabric, core, agg := FabricOf(h), g * h + pod % h, pod * h + g;
      && core < |fabric.coreLinks| && agg < |fabric.aggLinks|
      && |fabric.coreLinks[core]| == 2 && fabric.coreLinks[core][if pod < h then 0 else 1] == Host(agg, 1)
      && |fabric.aggLinks[agg]| == 1 + h && fabric.aggLinks[agg][0] == Host(agg, 2)
  {
    hide CoreList, AggList, EdgeList, FirstAgg, LowEnd, HighEnd, Host;
    var core, agg := At(h, g, Slot(h, pod)), At(h, pod, g);
    UpNumbers(h, pod, g);
    EndsAreHosts(agg);
    CoreLinks(h, core);
    AggLinks(h, agg);
    UpListed(h, agg);
  }

  lemma UpListed(h: nat, i: nat)
    ensures |AggList(h, i, h)| == 1 + h && AggList(h, i, h)[0] == HighEnd(i)
  {
  }

  lemma UpNumbers(h: nat, pod: nat, g: nat)
    requires h > 1 && pod < 2 * h && g < h
    ensures
      var core, agg := At(h, g, Slot(h, pod)), At(h, pod, g);
      && core < h * h && agg < 2 * h * h && core == g * h + pod % h && agg == pod * h + g
      && agg == if pod < h then FirstAgg(h, core) else FirstAgg(h, core) + h * h
  {
    CoreAndAgg(h, pod, g);
    hide FirstAgg, CoreOf;
    AtBound(h, pod, g, 2 * h);
    var agg := At(h, pod, g);
    CoreOfAgg(h, agg);
  }

  lemma CoreAndAgg(h: nat, pod: nat, g: nat)
    requires h > 1 && pod < 2 * h && g < h
    ensures CoreOf(h, At(h, pod, g)) == At(h, g, Slot(h, pod)) && Group(h, At(h, pod, g)) == pod
  {
    hide At, Slot, Group;
    SplitAt(h, pod, g);
  }

  /** Agg `a` and edge `e` of a pod share the /30 that follows those of the cores, of the aggs before and
      of the edges before: the agg has the first host on interface `1 + e`, the edge the second on `a`. */
  lemma DownLinkWired(h: nat, pod: nat, a: nat, e: nat, agg: nat, edge: nat, n: nat)
    requires h > 1 && pod < 2 * h && a < h && e < h
    requires agg == pod * h + a && edge == pod * h + e && n == 2 * h * h + (agg * h + e)
    ensures
      var fabric := FabricOf(h);
      && agg < |fabric.aggLinks| && edge < |fabric.edgeLinks|
      && |fabric.aggLinks[agg]| == 1 + h && fabric.aggLinks[agg][1 + e] == Host(n, 1)
      && |fabric.edgeLinks[edge]| == h && fabric.edgeLinks[edge][a] == Host(n, 2)
  {
    hide CoreList, AggList, EdgeList, LowEnd, HighEnd, Host, Group, Slot;
    EndsAreHosts(n);
    AtBound(h, pod, a, 2 * h);
    AtBound(h, pod, e, 2 * h);
    SplitAt(h, pod, e);
    AggLinks(h, agg);
    EdgeLinks(h, edge);
    DownListed(h, agg, e);
    EdgeListed(h, edge, a);
  }

  lemma DownListed(h: nat, i: nat, e: nat)
    requires e < h
    ensures |AggList(h, i, h)| == 1 + h && AggList(h, i, h)[1 + e] == LowEnd(DownLink(h, i, e))
  {
  }

  lemma EdgeListed(h: nat, j: nat, a: nat)
    requires a < h
    ensures |EdgeList(h, j, h)| == h
    ensures EdgeList(h, j, h)[a] == HighEnd(DownLink(h, At(h, Group(h, j), a), Slot(h, j)))
  {
  }

  /** Loopbacks count up from 10.0.0.1 through the cores, the aggs and the edges. */
  lemma LoopbacksCountUp(h: nat, i: nat)
    requires h > 0
    ensures
      var fabric := FabricOf(h);
      && |fabric.coreLo| == h * h && |fabric.aggLo| == |fabric.edgeLo| == 2 * h * h
      && (i < h * h ==> fabric.coreLo[i] == 0x0A00_0001 + i)
      && (i < 2 * h * h ==> fabric.aggLo[i] == 0x0A00_0001 + h * h + i)
      && (i < 2 * h * h ==> fabric.edgeLo[i] == 0x0A00_0001 + 3 * h * h + i)
  {
    hide CoreList, AggList, EdgeList;
  }

  // ---- failures ---------------------------------------------------------

  lemma SquaresFit(h: nat)
    ensures 5 * h * h <= 0xF5FF_FFFF <==> h <= 28730
  {
    if h <= 28730 {
      SquareCubeGrow(h, 28730);
    } else {
      SquareCubeGrow(28731, h);
    }
    assert 5 * h * h == 5 * (h * h);
  }

  /** For an odd or small k the argument is refused; from 162 on the /30s run out, and from 57462 on the
      loopbacks leave the address space first. */
  lemma FailsHow(k: int)
    ensures Expected(k) == Failed(BadK) <==> k % 2 == 1 || k < 4
    ensures Expected(k) == Failed(SubnetsExhausted) <==> k % 2 == 0 && 162 <= k < 57462
    ensures Expected(k) == Failed(AddressOverflow) <==> k % 2 == 0 && 57462 <= k
  {
    SucceedsUpTo160(k);
    if k >= 4 {
      SquaresFit(k / 2);
    }
    hide LinkCount, FabricOf;
  }

  // ---- names ------------------------------------------------------------

  function TenTo(width: nat): nat {
    if width == 0 then 1 else 10 * TenTo(width - 1)
  }

  lemma {:induction false} DecimalFits(n: nat, width: nat)
    requires width > 0 && n < TenTo(width)
    ensures |Decimal(n)| <= width
  {
    if n < 10 {
    } else {
      DecimalFits(n / 10, width - 1);
    }
  }

  /** A padded number has its digits and its value, and its width unless it does not fit. */
  lemma PaddedMeans(n: nat, width: nat)
    ensures IsDigits(Padded(n, width)) && Value(Padded(n, width)) == n && |Padded(n, width)| >= width
    ensures width > 0 && n < TenTo(width) ==> |Padded(n, width)| == width
  {
    ValueOfPadded(n, width);
    if width > 0 && n < TenTo(width) {
      DecimalFits(n, width);
    }
  }

  /** Cores are numbered from 1 with four digits, pods and the switches in them from 1 with two. */
  lemma HostnamesMean(h: nat, core: nat, pod: nat, i: nat)
    requires i < h
    ensures Hostname(h, Core(core)) == "core-" + Padded(core + 1, 4)
    ensures Hostname(h, Agg(pod * h + i)) == "agg-pod" + (Padded(pod + 1, 2) + ("-" + Padded(i + 1, 2)))
    ensures Hostname(h, Edge(pod * h + i)) == "edge-pod" + (Padded(pod + 1, 2) + ("-" + Padded(i + 1, 2)))
  {
    hide Padded;
    SplitAt(h, pod, i);
  }

  /** The first switch of each layer. */
  lemma FirstNames(h: nat)
    requires h > 0
    ensures Hostname(h, Core(0)) == "core-0001"
    ensures Hostname(h, Agg(0)) == "agg-pod01-01" && Hostname(h, Edge(0)) == "edge-pod01-01"
  {
    hide Padded, Group, Slot;
    NumberOne();
    HostnamesMean(h, 0, 0, 0);
    assert 0 * h + 0 == 0;
  }

  lemma NumberOne()
    ensures Padded(1, 2) == "01" && Padded(1, 4) == "0001"
  {
    assert Decimal(1) == "1";
  }
}

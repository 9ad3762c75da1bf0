/** Which rows the loopback reconciler moves and what it leaves of the two indexes, key by key
    (harness/pipeline.py). */
module MovedRows {
  import opened Fib
  import opened FibLaws
  import opened FibIndex
  import opened Reconcile
  import opened ReconcileLaws

  /** Rows taken for a node's own loopback: an OSPF or IS-IS route to a single host, or a connected or
      local one through an interface named like a loopback. */
  ghost predicate LoopbackLike(r: Route) {
    LoopbackRoute(r) || (ForHost(r.prefix) && (r.protocol == Ospf || r.protocol == Isis))
  }

  lemma LoopbackLikeMeans(r: Route)
    ensures LooksLikeLoopbackHost(r) <==> LoopbackLike(r)
  {
    hide IsLoopbackInterface, LoopbackRoute;
    LoopbackHostMeans(r);
    ForHostMeans(r.prefix);
  }

  /** The rows moved are exactly the loopback-like ones that one side alone holds. */
  lemma MovedMeans(bf: Index, hh: Index, k: RouteKey)
    ensures k in Moved(bf, hh) <==> (k in bf && k !in hh && LoopbackLike(bf[k]))
                                    || (k in hh && k !in bf && LoopbackLike(hh[k]))
  {
    hide LooksLikeLoopbackHost, LoopbackLike;
    if k in bf {
      LoopbackLikeMeans(bf[k]);
    }
    if k in hh {
      LoopbackLikeMeans(hh[k]);
    }
  }

  /** The reconciled indexes key by key: STRIP drops the moved rows, MATERIALIZE gives them to the other
      side as they are, and every other row stays as it was on its own side. */
  lemma ReconciledMeans(bf: Index, hh: Index, policy: LoopbackPolicy, k: RouteKey)
    ensures
      var r, moved := Reconciled(bf, hh, policy), k in Moved(bf, hh);
      && (k in r.bf <==> if policy == STRIP then k in bf && !moved
                         else k in bf || (policy == MATERIALIZE && moved))
      && (k in r.hh <==> if policy == STRIP then k in hh && !moved
                         else k in hh || (policy == MATERIALIZE && moved))
      && (k in r.bf ==> r.bf[k] == if k in bf then bf[k] else hh[k])
      && (k in r.hh ==> r.hh[k] == if k in hh then hh[k] else bf[k])
      && r.moved == if policy == PASSTHROUGH then 0 else |Moved(bf, hh)|
  {
    hide LooksLikeLoopbackHost;
    OneSidedDisjoint(bf, hh);
  }
}

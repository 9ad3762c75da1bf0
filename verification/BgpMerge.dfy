/** Attaching BGP attributes to extracted routes (harness/extract/fib.py, `merge_bgp_attributes`). */
module BgpMerge {
  import opened Ordering
  import opened Text
  import opened Fib

  /** One path of a BGP table, with its attributes as parsed. */
  datatype Path = Path(best: bool, asPath: Option<seq<int>>, localPref: Option<int>, med: Option<int>)

  /** What one VRF block says of one prefix; an entry that is not a list holds nothing. */
  datatype Entry = Entry(vrf: string, prefix: string, paths: Option<seq<Path>>)

  type Key = (string, string)

  function KeyOf(e: Entry): Key {
    (CanonicalizeVrf(e.vrf), e.prefix)
  }

  // ---- the best path for each prefix ------------------------------------

  function FirstBest(paths: seq<Path>): Option<Path> {
    if paths == [] then None else if paths[0].best then Some(paths[0]) else FirstBest(paths[1..])
  }

  function BestOf(e: Entry): Option<Path> {
    if e.paths.None? then None else FirstBest(e.paths.value)
  }

  /** Entry `i` is the last for its key that has a best path, which is `p`. */
  predicate Decides(entries: seq<Entry>, key: Key, i: nat, p: Path)
    requires i < |entries|
  {
    && KeyOf(entries[i]) == key && BestOf(entries[i]) == Some(p)
    && forall j | i < j < |entries| :: KeyOf(entries[j]) == key ==> BestOf(entries[j]).None?
  }

  function Best(entries: seq<Entry>): map<Key, Path> {
    if entries == [] then map[]
    else
      var e, before := entries[|entries| - 1], Best(entries[..|entries| - 1]);
      match BestOf(e)
      case None => before
      case Some(p) => before[KeyOf(e) := p]
  }

  lemma DecidesBefore(entries: seq<Entry>, key: Key, i: nat, p: Path)
    requires i < |entries| - 1
    ensures Decides(entries, key, i, p) <==>
            && Decides(entries[..|entries| - 1], key, i, p)
            && (KeyOf(entries[|entries| - 1]) == key ==> BestOf(entries[|entries| - 1]).None?)
  {
    hide BestOf, KeyOf;
    var init := entries[..|entries| - 1];
    assert init[i] == entries[i] && forall j | i < j < |init| :: init[j] == entries[j];
  }

  /** A prefix gets the first best path of the last entry that has one, and none if no entry has. */
  lemma {:induction false} BestIsDecided(entries: seq<Entry>, key: Key, p: Path)
    ensures key in Best(entries) && Best(entries)[key] == p <==>
            exists i | 0 <= i < |entries| :: Decides(entries, key, i, p)
  {
    if entries == [] {
    } else {
      var n := |entries| - 1;
      BestIsDecided(entries[..n], key, p);
      forall i | 0 <= i < n
        ensures Decides(entries, key, i, p) <==>
                && Decides(entries[..n], key, i, p)
                && (KeyOf(entries[n]) == key ==> BestOf(entries[n]).None?)
      {
        DecidesBefore(entries, key, i, p);
      }
      hide BestOf, KeyOf;
      assert Decides(entries, key, n, p) <==> KeyOf(entries[n]) == key && BestOf(entries[n]) == Some(p);
    }
  }

  /** Path `k` of an entry is its first best one. */
  predicate FirstBestAt(e: Entry, k: int) {
    && e.paths.Some? && 0 <= k < |e.paths.value| && e.paths.value[k].best
    && forall j | 0 <= j < k :: !e.paths.value[j].best
  }

  lemma {:induction false} FirstBestIs(paths: seq<Path>, k: nat)
    requires k < |paths| && paths[k].best && forall j | 0 <= j < k :: !paths[j].best
    ensures FirstBest(paths) == Some(paths[k])
  {
    if k == 0 {
    } else {
      assert !paths[0].best;
      FirstBestIs(paths[1..], k - 1);
    }
  }

  lemma {:induction false} SomeFirstBest(paths: seq<Path>) returns (k: nat)
    requires FirstBest(paths).Some?
    ensures k < |paths| && paths[k].best && forall j | 0 <= j < k :: !paths[j].best
  {
    if paths[0].best {
      k := 0;
    } else {
      var i := SomeFirstBest(paths[1..]);
      k := i + 1;
      assert forall j | 0 < j < k :: paths[j] == paths[1..][j - 1];
    }
  }

  lemma BestOfMeans(e: Entry)
    ensures forall k :: FirstBestAt(e, k) ==> BestOf(e) == Some(e.paths.value[k])
    ensures BestOf(e).Some? <==> exists k :: FirstBestAt(e, k)
  {
    hide FirstBest;
    forall k | FirstBestAt(e, k) ensures BestOf(e) == Some(e.paths.value[k]) {
      FirstBestIs(e.paths.value, k);
    }
    if BestOf(e).Some? {
      var k := SomeFirstBest(e.paths.value);
      assert FirstBestAt(e, k);
    }
  }

  /** The entry that decides a key, in terms of the table: its VRF and prefix are the key's, its first
      best path is `p`, and no later entry for the key has a best path at all. */
  lemma DecidesMeans(entries: seq<Entry>, key: Key, i: nat, p: Path)
    requires i < |entries|
    ensures Decides(entries, key, i, p) <==>
            && CanonicalizeVrf(entries[i].vrf) == key.0 && entries[i].prefix == key.1
            && (exists k :: FirstBestAt(entries[i], k) && entries[i].paths.value[k] == p)
            && forall j | i < j < |entries| && CanonicalizeVrf(entries[j].vrf) == key.0 && entries[j].prefix == key.1 ::
                 forall k :: !FirstBestAt(entries[j], k)
  {
    hide CanonicalizeVrf, FirstBestAt, BestOf;
    forall j | 0 <= j < |entries|
      ensures BestOf(entries[j]).Some? <==> exists k :: FirstBestAt(entries[j], k)
      ensures forall k :: FirstBestAt(entries[j], k) ==>
                entries[j].paths.Some? && 0 <= k < |entries[j].paths.value|
                && BestOf(entries[j]) == Some(entries[j].paths.value[k])
    {
      FirstBestIsPath(entries[j]);
      BestOfMeans(entries[j]);
    }
    FirstBestIsPath(entries[i]);
  }

  lemma FirstBestIsPath(e: Entry)
    ensures forall k :: FirstBestAt(e, k) ==> e.paths.Some? && 0 <= k < |e.paths.value|
  {
  }

  method CollectBest(entries: seq<Entry>) returns (best: map<Key, Path>)
    ensures best == Best(entries)
  {
    best := map[];
    for i := 0 to |entries|
      invariant best == Best(entries[..i])
    {
      var e := entries[i];
      assert entries[..i + 1][..i] == entries[..i];
      if e.paths.Some? {
        var paths := e.paths.value;
        var k := 0;
        while k < |paths| && !paths[k].best
          invariant k <= |paths| && FirstBest(paths) == FirstBest(paths[k..])
        {
          k := k + 1;
        }
        if k < |paths| {
          best := best[KeyOf(e) := paths[k]];
        }
      }
    }
    assert entries[..|entries|] == entries;
  }

  // ---- the merge --------------------------------------------------------

  function Annotated(best: map<Key, Path>, vrf: string, r: Route): Route {
    if r.protocol == Bgp && (vrf, r.prefix) in best then
      var p := best[(vrf, r.prefix)];
      r.(asPath := p.asPath, localPref := p.localPref, med := p.med)
    else r
  }

  function AnnotateAll(best: map<Key, Path>, vrf: string, rs: seq<Route>): seq<Route> {
    if rs == [] then [] else [Annotated(best, vrf, rs[0])] + AnnotateAll(best, vrf, rs[1..])
  }

  function Merged(fib: NodeFib, entries: seq<Entry>): NodeFib {
    fib.(routes := AnnotateAll(Best(entries), CanonicalizeVrf(fib.vrf), fib.routes))
  }

  lemma {:induction false} AnnotateAllAt(best: map<Key, Path>, vrf: string, rs: seq<Route>)
    ensures |AnnotateAll(best, vrf, rs)| == |rs|
    ensures forall i | 0 <= i < |rs| :: AnnotateAll(best, vrf, rs)[i] == Annotated(best, vrf, rs[i])
  {
    if rs == [] {
    } else {
      AnnotateAllAt(best, vrf, rs[1..]);
    }
  }

  method MergeBgpAttributes(fib: NodeFib, entries: seq<Entry>) returns (r: NodeFib)
    ensures r == Merged(fib, entries)
  {
    var best := CollectBest(entries);
    var vrf := CanonicalizeVrf(fib.vrf);
    var updated := [];
    AnnotateAllAt(best, vrf, fib.routes);
    for i := 0 to |fib.routes|
      invariant |updated| == i
      invariant forall j | 0 <= j < i :: updated[j] == AnnotateAll(best, vrf, fib.routes)[j]
    {
      var route := fib.routes[i];
      if route.protocol != Bgp {
        updated := updated + [route];
      } else if (vrf, route.prefix) !in best {
        updated := updated + [route];
      } else {
        var p := best[(vrf, route.prefix)];
        updated := updated + [route.(asPath := p.asPath, localPref := p.localPref, med := p.med)];
      }
    }
    r := fib.(routes := updated);
  }

  /** A BGP route takes the three attributes of the path decided for its prefix; nothing else of it
      changes, and no other route does. */
  lemma MergeTouchesAttributesOnly(fib: NodeFib, entries: seq<Entry>, i: nat, p: Path)
    requires i < |fib.routes|
    ensures |Merged(fib, entries).routes| == |fib.routes|
    ensures
      var r, m := fib.routes[i], Merged(fib, entries).routes[i];
      var key := (CanonicalizeVrf(fib.vrf), r.prefix);
      && (r.protocol == Bgp && (exists k | 0 <= k < |entries| :: Decides(entries, key, k, p)) ==>
            m == r.(asPath := p.asPath, localPref := p.localPref, med := p.med))
      && (r.protocol != Bgp || (forall k, q | 0 <= k < |entries| :: !Decides(entries, key, k, q)) ==> m == r)
  {
    hide Decides, Best;
    var best, key := Best(entries), (CanonicalizeVrf(fib.vrf), fib.routes[i].prefix);
    AnnotateAllAt(best, CanonicalizeVrf(fib.vrf), fib.routes);
    BestIsDecided(entries, key, p);
    if key in best {
      BestIsDecided(entries, key, best[key]);
    }
  }

  /** Merging again changes nothing. */
  lemma MergeIdempotent(fib: NodeFib, entries: seq<Entry>)
    ensures Merged(Merged(fib, entries), entries) == Merged(fib, entries)
  {
    var best, vrf := Best(entries), CanonicalizeVrf(fib.vrf);
    AnnotateAllAt(best, vrf, fib.routes);
    AnnotateAllAt(best, vrf, Merged(fib, entries).routes);
  }

  // ---- merging and canonicalizing ---------------------------------------

  lemma {:induction false} KeepAnnotated(best: map<Key, Path>, vrf: string, policy: LoopbackPolicy, rs: seq<Route>)
    ensures KeepRoutes(policy, AnnotateAll(best, vrf, rs)) == AnnotateAll(best, vrf, KeepRoutes(policy, rs))
  {
    if rs == [] {
    } else {
      hide IsLoopbackHost;
      KeepAnnotated(best, vrf, policy, rs[1..]);
      AnnotatedKeepsHost(best, vrf, rs[0]);
      var rest := KeepRoutes(policy, rs[1..]);
      assert AnnotateAll(best, vrf, rs)[1..] == AnnotateAll(best, vrf, rs[1..]);
      assert ([rs[0]] + rest)[1..] == rest;
      assert [] + rest == rest;
    }
  }

  lemma AnnotatedKeepsHost(best: map<Key, Path>, vrf: string, r: Route)
    ensures IsLoopbackHost(Annotated(best, vrf, r)) == IsLoopbackHost(r)
  {
  }

  lemma {:induction false} InsertAnnotated(best: map<Key, Path>, vrf: string, r: Route, rs: seq<Route>)
    ensures Insert(RouteLeq, Annotated(best, vrf, r), AnnotateAll(best, vrf, rs))
         == AnnotateAll(best, vrf, Insert(RouteLeq, r, rs))
  {
    if rs == [] {
    } else if RouteLeq(r, rs[0]) {
      assert ([r] + rs)[1..] == rs;
    } else {
      InsertAnnotated(best, vrf, r, rs[1..]);
      assert AnnotateAll(best, vrf, rs)[1..] == AnnotateAll(best, vrf, rs[1..]);
      assert ([rs[0]] + Insert(RouteLeq, r, rs[1..]))[1..] == Insert(RouteLeq, r, rs[1..]);
    }
  }

  lemma {:induction false} SortAnnotated(best: map<Key, Path>, vrf: string, rs: seq<Route>)
    ensures StableSort(RouteLeq, AnnotateAll(best, vrf, rs)) == AnnotateAll(best, vrf, StableSort(RouteLeq, rs))
  {
    if rs == [] {
    } else {
      SortAnnotated(best, vrf, rs[1..]);
      assert AnnotateAll(best, vrf, rs)[1..] == AnnotateAll(best, vrf, rs[1..]);
      InsertAnnotated(best, vrf, rs[0], StableSort(RouteLeq, rs[1..]));
    }
  }

  /** Attributes may be attached before or after the FIB is put in canonical form, under any policy. */
  lemma MergeCommutesWithCanonicalize(fib: NodeFib, entries: seq<Entry>, policy: LoopbackPolicy)
    ensures CanonicalizeNodeFib(Merged(fib, entries), policy) == Merged(CanonicalizeNodeFib(fib, policy), entries)
  {
    var best, vrf := Best(entries), CanonicalizeVrf(fib.vrf);
    var rs := CanonicalizeRoutes(fib.routes);
    CanonicalizeVrfIdempotent(fib.vrf);
    AnnotateAllAt(best, vrf, fib.routes);
    AnnotateAllAt(best, vrf, rs);
    assert CanonicalizeRoutes(AnnotateAll(best, vrf, fib.routes)) == AnnotateAll(best, vrf, rs);
    KeepAnnotated(best, vrf, policy, rs);
    SortAnnotated(best, vrf, KeepRoutes(policy, rs));
  }
}

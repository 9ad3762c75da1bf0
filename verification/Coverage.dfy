/** Rolling Hammerhead's per-trial coverage verdicts up to a topology, and topologies up to the
    corpus (harness/pipeline.py). */
module Coverage {
  import opened Text

  datatype Verdict = Verdict(status: Option<string>, degraded: Option<bool>, blockers: Option<seq<string>>)

  /** The coverage fields of a topology's result. */
  datatype Rollup = Rollup(
    status: Option<string>, degraded: Option<bool>, blockers: Option<seq<string>>,
    degradedTrials: nat, trials: nat)

  // ---- first occurrences ------------------------------------------------

  /** `list(dict.fromkeys(xs))`: each element once, where it first occurs. */
  function Distinct(xs: seq<string>): seq<string> {
    if xs == [] then []
    else
      var before, last := Distinct(xs[..|xs| - 1]), xs[|xs| - 1];
      if last in before then before else before + [last]
  }

  lemma {:induction false} DistinctFacts(xs: seq<string>)
    ensures forall x :: x in Distinct(xs) <==> x in xs
    ensures forall i, j | 0 <= i < j < |Distinct(xs)| :: Distinct(xs)[i] != Distinct(xs)[j]
  {
    if xs == [] {
    } else {
      DistinctFacts(xs[..|xs| - 1]);
      assert xs == xs[..|xs| - 1] + [xs[|xs| - 1]];
    }
  }

  /** Dropping repeats from the parts first changes nothing. */
  lemma {:induction false} DistinctOfDistinct(a: seq<string>, b: seq<string>)
    ensures Distinct(a + b) == Distinct(Distinct(a) + Distinct(b))
    decreases |b|
  {
    hide Distinct;
    if b == [] {
      assert Distinct(b) == [] by { NothingDistinct(); }
      assert a + b == a && Distinct(a) + Distinct(b) == Distinct(a);
      DistinctFacts(a);
      DistinctIsFixed(Distinct(a));
    } else {
      var init, last := b[..|b| - 1], b[|b| - 1];
      var both := Distinct(a) + Distinct(init);
      DistinctOfDistinct(a, init);
      assert b == init + [last] && a + b == (a + init) + [last];
      DistinctSnoc(a + init, last);
      DistinctSnoc(init, last);
      DistinctSnoc(both, last);
      assert last in a + init <==> last in both by {
        DistinctFacts(a);
        DistinctFacts(init);
      }
      if last !in init {
        assert Distinct(a) + (Distinct(init) + [last]) == both + [last];
      }
    }
  }

  lemma NothingDistinct()
    ensures Distinct([]) == []
  {
  }

  lemma DistinctSnoc(xs: seq<string>, x: string)
    ensures Distinct(xs + [x]) == if x in xs then Distinct(xs) else Distinct(xs) + [x]
  {
    assert (xs + [x])[..|xs|] == xs;
    DistinctFacts(xs);
  }

  lemma {:induction false} DistinctIsFixed(xs: seq<string>)
    requires forall i, j | 0 <= i < j < |xs| :: xs[i] != xs[j]
    ensures Distinct(xs) == xs
  {
    if xs == [] {
    } else {
      DistinctIsFixed(xs[..|xs| - 1]);
      assert xs == xs[..|xs| - 1] + [xs[|xs| - 1]];
    }
  }

  lemma DistinctTwice(xs: seq<string>)
    ensures Distinct(Distinct(xs)) == Distinct(xs)
  {
    DistinctFacts(xs);
    DistinctIsFixed(Distinct(xs));
  }

  /** What comes first stays first: the distinct elements of a beginning are the beginning of those of
      the whole. */
  lemma {:induction false} DistinctInOrder(xs: seq<string>, n: nat)
    requires n <= |xs|
    ensures Distinct(xs[..n]) <= Distinct(xs)
  {
    if n == |xs| {
      assert xs[..n] == xs;
    } else {
      var init := xs[..|xs| - 1];
      DistinctInOrder(init, n);
      assert init[..n] == xs[..n];
    }
  }

  // ---- one topology -----------------------------------------------------

  function DegradedStatuses(verdicts: seq<Verdict>): seq<Option<string>> {
    if verdicts == [] then []
    else
      var last := verdicts[|verdicts| - 1];
      DegradedStatuses(verdicts[..|verdicts| - 1]) + (if last.degraded == Some(true) then [last.status] else [])
  }

  /** All blockers of the trials that recorded some list of them, or nothing if none did. */
  function Recorded(verdicts: seq<Verdict>): Option<seq<string>> {
    if verdicts == [] then None
    else Appended(Recorded(verdicts[..|verdicts| - 1]), verdicts[|verdicts| - 1].blockers)
  }

  function Appended(a: Option<seq<string>>, b: Option<seq<string>>): Option<seq<string>> {
    if a.None? then b else if b.None? then a else Some(a.value + b.value)
  }

  function Word(status: Option<string>): string {
    if status.None? || status.value == "" then "degraded" else status.value
  }

  predicate AllComplete(verdicts: seq<Verdict>) {
    forall v | v in verdicts :: v.degraded == Some(false)
  }

  function RollUp(verdicts: seq<Verdict>): Rollup {
    var statuses := DegradedStatuses(verdicts);
    var complete := verdicts != [] && AllComplete(verdicts);
    Rollup(
      if statuses != [] then Some(Word(statuses[0]))
      else if complete then verdicts[|verdicts| - 1].status else None,
      if statuses != [] then Some(true) else if complete then Some(false) else None,
      match Recorded(verdicts) case None => None case Some(bs) => Some(Distinct(bs)),
      |statuses|,
      |verdicts|)
  }

  /** Two batches of trials taken as one: degraded wins, and complete needs both. */
  function Combine(a: Rollup, b: Rollup): Rollup {
    var degraded :=
      if a.degraded == Some(true) || b.degraded == Some(true) then Some(true)
      else if a.degraded == Some(false) && b.degraded == Some(false) then Some(false) else None;
    Rollup(
      if a.degraded == Some(true) then a.status else if degraded.Some? then b.status else None,
      degraded,
      match Appended(a.blockers, b.blockers) case None => None case Some(bs) => Some(Distinct(bs)),
      a.degradedTrials + b.degradedTrials,
      a.trials + b.trials)
  }

  lemma {:induction false} DegradedConcat(a: seq<Verdict>, b: seq<Verdict>)
    ensures DegradedStatuses(a + b) == DegradedStatuses(a) + DegradedStatuses(b)
    decreases |b|
  {
    if b == [] {
      assert a + b == a;
    } else {
      assert (a + b)[..|a + b| - 1] == a + b[..|b| - 1];
      DegradedConcat(a, b[..|b| - 1]);
    }
  }

  lemma {:induction false} RecordedConcat(a: seq<Verdict>, b: seq<Verdict>)
    ensures Recorded(a + b) == Appended(Recorded(a), Recorded(b))
    decreases |b|
  {
    if b == [] {
      assert a + b == a;
    } else {
      var init, last := b[..|b| - 1], b[|b| - 1];
      assert (a + b)[..|a + b| - 1] == a + init && (a + b)[|a + b| - 1] == last;
      RecordedConcat(a, init);
      AppendedAssociates(Recorded(a), Recorded(init), last.blockers);
    }
  }

  lemma AppendedAssociates(a: Option<seq<string>>, b: Option<seq<string>>, c: Option<seq<string>>)
    ensures Appended(Appended(a, b), c) == Appended(a, Appended(b, c))
  {
    if a.Some? && b.Some? && c.Some? {
      assert a.value + b.value + c.value == a.value + (b.value + c.value);
    }
  }

  /** `degraded` is true when some trial is degraded, false when there are trials and all are
      complete; the count of degraded trials agrees with it. */
  lemma {:induction false} DegradedMeans(verdicts: seq<Verdict>)
    ensures RollUp(verdicts).degraded == Some(true) <==> exists v :: v in verdicts && v.degraded == Some(true)
    ensures RollUp(verdicts).degraded == Some(false) <==> verdicts != [] && AllComplete(verdicts)
    ensures RollUp(verdicts).degraded == Some(true) <==> RollUp(verdicts).degradedTrials > 0
    ensures RollUp(verdicts).degradedTrials <= RollUp(verdicts).trials == |verdicts|
  {
    if verdicts == [] {
    } else {
      DegradedMeans(verdicts[..|verdicts| - 1]);
      assert verdicts == verdicts[..|verdicts| - 1] + [verdicts[|verdicts| - 1]];
    }
  }

  /** Trial `i` is the first degraded one. */
  predicate FirstDegraded(verdicts: seq<Verdict>, i: nat) {
    i < |verdicts| && verdicts[i].degraded == Some(true) && forall j | 0 <= j < i :: verdicts[j].degraded != Some(true)
  }

  lemma {:induction false} FirstDegradedIs(verdicts: seq<Verdict>, i: nat)
    requires FirstDegraded(verdicts, i)
    ensures DegradedStatuses(verdicts) != [] && DegradedStatuses(verdicts)[0] == verdicts[i].status
  {
    var init := verdicts[..|verdicts| - 1];
    if i == |init| {
      NoneDegraded(init);
    } else {
      FirstDegradedIs(init, i);
    }
  }

  lemma {:induction false} NoneDegraded(verdicts: seq<Verdict>)
    requires forall v | v in verdicts :: v.degraded != Some(true)
    ensures DegradedStatuses(verdicts) == []
  {
    if verdicts == [] {
    } else {
      NoneDegraded(verdicts[..|verdicts| - 1]);
      assert verdicts[|verdicts| - 1] in verdicts;
    }
  }

  /** The status word is that of the first degraded trial, or `degraded` if it gave none; without one it
      is that of the last trial if all are complete. */
  lemma StatusMeans(verdicts: seq<Verdict>)
    ensures forall i: nat | FirstDegraded(verdicts, i) ::
              RollUp(verdicts).status ==
              if verdicts[i].status in {None, Some("")} then Some("degraded") else verdicts[i].status
    ensures (forall v | v in verdicts :: v.degraded != Some(true)) ==>
              RollUp(verdicts).status ==
              if verdicts != [] && forall v | v in verdicts :: v.degraded == Some(false)
              then verdicts[|verdicts| - 1].status else None
  {
    hide DegradedStatuses, Recorded, Distinct;
    forall i: nat | FirstDegraded(verdicts, i)
      ensures DegradedStatuses(verdicts) != [] && DegradedStatuses(verdicts)[0] == verdicts[i].status
    {
      FirstDegradedIs(verdicts, i);
    }
    if forall v | v in verdicts :: v.degraded != Some(true) {
      NoneDegraded(verdicts);
    }
  }

  ghost predicate Blocks(v: Verdict, x: string) {
    v.blockers.Some? && x in v.blockers.value
  }

  lemma {:induction false} RecordedMeans(verdicts: seq<Verdict>)
    ensures Recorded(verdicts).None? <==> forall v | v in verdicts :: v.blockers.None?
    ensures Recorded(verdicts).Some? ==>
              forall x :: x in Recorded(verdicts).value <==> exists v :: v in verdicts && Blocks(v, x)
  {
    if verdicts == [] {
    } else {
      var init, last := verdicts[..|verdicts| - 1], verdicts[|verdicts| - 1];
      assert verdicts == init + [last];
      RecordedMeans(init);
      forall x
        ensures (exists v :: v in verdicts && Blocks(v, x)) <==>
                (exists v :: v in init && Blocks(v, x)) || Blocks(last, x)
      {
        assert last in verdicts;
        assert forall v :: v in verdicts <==> v in init || v == last;
      }
    }
  }

  /** The blockers are those any trial recorded, each once; there is no list if no trial recorded one. */
  lemma BlockersMean(verdicts: seq<Verdict>)
    ensures RollUp(verdicts).blockers.None? <==> forall v | v in verdicts :: v.blockers.None?
    ensures RollUp(verdicts).blockers.Some? ==>
              var bs := RollUp(verdicts).blockers.value;
              && (forall x :: x in bs <==> exists v :: v in verdicts && Blocks(v, x))
              && forall i, j | 0 <= i < j < |bs| :: bs[i] != bs[j]
  {
    hide DegradedStatuses, Recorded, Distinct, Blocks;
    RecordedMeans(verdicts);
    if Recorded(verdicts).Some? {
      DistinctFacts(Recorded(verdicts).value);
    }
  }

  lemma DegradedStep(verdicts: seq<Verdict>)
    requires verdicts != []
    ensures
      var n := |verdicts| - 1;
      RollUp(verdicts).degradedTrials
      == RollUp(verdicts[..n]).degradedTrials + (if verdicts[n].degraded == Some(true) then 1 else 0)
  {
    hide Recorded, Distinct, Word;
  }

  /** The count of degraded trials is the number of positions at which the verdict is degraded. */
  lemma {:induction false} DegradedCount(verdicts: seq<Verdict>)
    ensures RollUp(verdicts).degradedTrials == |set i | 0 <= i < |verdicts| && verdicts[i].degraded == Some(true)|
  {
    hide Recorded, Distinct;
    var at := set i | 0 <= i < |verdicts| && verdicts[i].degraded == Some(true);
    if verdicts == [] {
    } else {
      var n := |verdicts| - 1;
      var init := verdicts[..n];
      hide DegradedStatuses;
      DegradedCount(init);
      DegradedStep(verdicts);
      var before := set i | 0 <= i < |init| && init[i].degraded == Some(true);
      assert at == if verdicts[n].degraded == Some(true) then before + {n} else before;
    }
  }

  /** Rolling two batches up together is combining their roll-ups. */
  lemma RollUpConcat(a: seq<Verdict>, b: seq<Verdict>)
    requires a != [] && b != []
    ensures RollUp(a + b) == Combine(RollUp(a), RollUp(b))
  {
    hide DegradedStatuses, Recorded, Distinct;
    DegradedConcat(a, b);
    RecordedConcat(a, b);
    DegradedMeans(a);
    DegradedMeans(b);
    assert (a + b)[|a + b| - 1] == b[|b| - 1];
    assert AllComplete(a + b) <==> AllComplete(a) && AllComplete(b);
    if Recorded(a).Some? && Recorded(b).Some? {
      DistinctOfDistinct(Recorded(a).value, Recorded(b).value);
    } else if Recorded(a).Some? {
      DistinctTwice(Recorded(a).value);
    } else if Recorded(b).Some? {
      DistinctTwice(Recorded(b).value);
    }
  }

  // ---- the corpus -------------------------------------------------------

  datatype Topology = Topology(name: string, rollup: Rollup)

  datatype DegradedEntry = DegradedEntry(
    topology: string, status: Option<string>, blockers: seq<string>, degradedTrials: nat, trials: nat)

  datatype Corpus = Corpus(complete: nat, degraded: nat, unknown: nat, degradedTopologies: seq<DegradedEntry>)

  function Entry(t: Topology): DegradedEntry {
    DegradedEntry(t.name, t.rollup.status, t.rollup.blockers.GetOr([]), t.rollup.degradedTrials, t.rollup.trials)
  }

  function WithVerdict(items: seq<Topology>, verdict: Option<bool>): seq<Topology> {
    if items == [] then []
    else (if items[0].rollup.degraded == verdict then [items[0]] else []) + WithVerdict(items[1..], verdict)
  }

  function Summarize(items: seq<Topology>): Corpus {
    var degraded := WithVerdict(items, Some(true));
    Corpus(|WithVerdict(items, Some(false))|, |degraded|, |WithVerdict(items, None)|,
           seq(|degraded|, i requires 0 <= i < |degraded| => Entry(degraded[i])))
  }

  /** Every topology is counted under one verdict. */
  lemma {:induction false} CorpusPartition(items: seq<Topology>)
    ensures Summarize(items).complete + Summarize(items).degraded + Summarize(items).unknown == |items|
    ensures |Summarize(items).degradedTopologies| == Summarize(items).degraded
  {
    if items == [] {
    } else {
      CorpusPartition(items[1..]);
      OneMore(items, Some(true));
      OneMore(items, Some(false));
      OneMore(items, None);
      match items[0].rollup.degraded
      case None =>
      case Some(d) => assert d || !d;
    }
  }

  lemma OneMore(items: seq<Topology>, verdict: Option<bool>)
    requires items != []
    ensures |WithVerdict(items, verdict)|
         == |WithVerdict(items[1..], verdict)| + (if items[0].rollup.degraded == verdict then 1 else 0)
  {
  }

  /** The list of degraded topologies is complete, and when each verdict was rolled up from trials
      every entry stands for at least one degraded trial. */
  lemma {:induction false} DegradedAreListed(items: seq<Topology>, trials: seq<seq<Verdict>>, t: Topology)
    requires |trials| == |items|
    requires forall i | 0 <= i < |items| :: items[i].rollup == RollUp(trials[i])
    requires t in items
    ensures Entry(t) in Summarize(items).degradedTopologies <== t.rollup.degradedTrials > 0
    ensures forall e | e in Summarize(items).degradedTopologies :: 0 < e.degradedTrials <= e.trials
  {
    hide RollUp;
    var degraded := WithVerdict(items, Some(true));
    forall i | 0 <= i < |items|
      ensures items[i].rollup.degraded == Some(true) <==> items[i].rollup.degradedTrials > 0
      ensures items[i].rollup.degradedTrials <= items[i].rollup.trials
    {
      DegradedMeans(trials[i]);
    }
    WithVerdictIff(items, Some(true));
    var listed := Summarize(items).degradedTopologies;
    forall e | e in listed ensures 0 < e.degradedTrials <= e.trials {
      var i :| 0 <= i < |listed| && listed[i] == e;
      assert degraded[i] in degraded;
    }
    if t.rollup.degradedTrials > 0 {
      var i :| 0 <= i < |degraded| && degraded[i] == t;
      assert listed[i] == Entry(t);
    }
  }

  lemma {:induction false} WithVerdictIff(items: seq<Topology>, verdict: Option<bool>)
    ensures forall t :: t in WithVerdict(items, verdict) <==> t in items && t.rollup.degraded == verdict
  {
    if items == [] {
    } else {
      WithVerdictIff(items[1..], verdict);
      assert items == [items[0]] + items[1..];
    }
  }

  /** A verdict's topologies are counted as often as they are listed. */
  lemma {:induction false} WithVerdictCount(items: seq<Topology>, verdict: Option<bool>, t: Topology)
    ensures multiset(WithVerdict(items, verdict))[t] == if t.rollup.degraded == verdict then multiset(items)[t] else 0
  {
    if items == [] {
    } else {
      WithVerdictCount(items[1..], verdict, t);
      assert items == [items[0]] + items[1..];
    }
  }

  /** Every entry of the corpus list repeats what its topology's roll-up says. */
  lemma EntriesMean(items: seq<Topology>, e: DegradedEntry)
    ensures e in Summarize(items).degradedTopologies <==>
            exists t :: t in items && t.rollup.degraded == Some(true) && t.name == e.topology
              && t.rollup.status == e.status && t.rollup.degradedTrials == e.degradedTrials
              && t.rollup.trials == e.trials
              && (t.rollup.blockers == Some(e.blockers) || (t.rollup.blockers.None? && e.blockers == []))
  {
    var degraded, listed := WithVerdict(items, Some(true)), Summarize(items).degradedTopologies;
    WithVerdictIff(items, Some(true));
    if e in listed {
      var i :| 0 <= i < |listed| && listed[i] == e;
      assert degraded[i] in degraded && Entry(degraded[i]) == e;
    }
    if t :| t in items && t.rollup.degraded == Some(true) && Entry(t) == e {
      var i :| 0 <= i < |degraded| && degraded[i] == t;
      assert listed[i] == e;
    }
  }
}

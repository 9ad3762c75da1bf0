/** The timings of a topology's repeated trials (harness/pipeline.py, `_compute_sim_only_agreement`):
    the cold and warm Batfish figures and the paired Hammerhead denominator. */
module TrialTimings {
  import opened Text
  import opened Means
  import opened Batfish
  import opened RealArithmetic

  function MeanOrNone(xs: seq<real>): Option<real> {
    if xs == [] then None else Some(Mean(xs))
  }

  // ---- simulate plus rib ------------------------------------------------

  function PairSums(xs: seq<real>, ys: seq<real>): (zs: seq<real>)
    requires |xs| == |ys|
    ensures |zs| == |xs| && forall i | 0 <= i < |xs| :: zs[i] == xs[i] + ys[i]
  {
    seq(|xs|, i requires 0 <= i < |xs| => xs[i] + ys[i])
  }

  function SimulatePlusRib(sims: seq<real>, ribs: seq<real>): Option<real> {
    var sim, rib := MeanOrNone(sims), MeanOrNone(ribs);
    if sims != [] && ribs != [] && |sims| == |ribs| then MeanOrNone(PairSums(sims, ribs))
    else if sim.Some? && rib.Some? then Some(sim.value + rib.value)
    else if sim.Some? then sim
    else None
  }

  lemma {:induction false} SumOfPairs(xs: seq<real>, ys: seq<real>, n: nat)
    requires n <= |xs| == |ys|
    ensures Sum(PairSums(xs, ys), n) == Sum(xs, n) + Sum(ys, n)
  {
    if n == 0 {
    } else {
      SumOfPairs(xs, ys, n - 1);
    }
  }

  /** Pairing the trials before taking the mean gives what adding the two means gives, so the figure
      is one formula whether or not the lists have the same length. */
  lemma PairingIsAdding(sims: seq<real>, ribs: seq<real>)
    ensures SimulatePlusRib(sims, ribs)
         == if sims == [] then None else Some(Mean(sims) + if ribs == [] then 0.0 else Mean(ribs))
  {
    hide Sum;
    if sims != [] && |sims| == |ribs| {
      SumOfPairs(sims, ribs, |sims|);
      AddQuotients(Sum(sims), Sum(ribs), Sum(PairSums(sims, ribs)), |sims| as real);
      assert Mean(PairSums(sims, ribs)) == Mean(sims) + Mean(ribs);
    }
  }

  // ---- cold and warm ----------------------------------------------------

  function Tagged(sims: seq<real>, warms: seq<bool>, warm: bool): seq<real>
    requires |sims| == |warms|
  {
    if sims == [] then []
    else (if warms[0] == warm then [sims[0]] else []) + Tagged(sims[1..], warms[1..], warm)
  }

  datatype ColdWarm = ColdWarm(cold: Option<real>, warmMean: Option<real>)

  function First(xs: seq<real>): Option<real> {
    if xs == [] then None else Some(xs[0])
  }

  function Split(sims: seq<real>, warms: seq<bool>): ColdWarm {
    if warms != [] && sims != [] && |warms| == |sims| then
      ColdWarm(First(Tagged(sims, warms, false)), MeanOrNone(Tagged(sims, warms, true)))
    else
      ColdWarm(First(sims), None)
  }

  lemma {:induction false} FirstTagged(sims: seq<real>, warms: seq<bool>, warm: bool)
    requires |sims| == |warms|
    ensures Tagged(sims, warms, warm) != [] <==> warm in warms
    ensures forall i | 0 <= i < |sims| && warms[i] == warm && warm !in warms[..i] ::
              First(Tagged(sims, warms, warm)) == Some(sims[i])
  {
    if sims == [] {
    } else {
      FirstTagged(sims[1..], warms[1..], warm);
      assert warms == [warms[0]] + warms[1..];
      forall i | 0 <= i < |sims| && warms[i] == warm && warm !in warms[..i]
        ensures First(Tagged(sims, warms, warm)) == Some(sims[i])
      {
        if i > 0 {
          assert warms[..i] == [warms[0]] + warms[1..][..i - 1];
          assert warms[0] in warms[..i] && warms[1..][i - 1] == warm && sims[1..][i - 1] == sims[i];
        }
      }
    }
  }

  /** With a tag for each trial the cold figure is that of the first trial tagged cold and there is a
      warm figure if any is tagged warm; with fewer or more tags the first trial counts as the cold one. */
  lemma SplitMeans(sims: seq<real>, warms: seq<bool>)
    requires sims != []
    ensures
      var r := Split(sims, warms);
      if |warms| == |sims| then
        && (r.cold.Some? <==> false in warms) && (r.warmMean.Some? <==> true in warms)
        && forall i | 0 <= i < |sims| && !warms[i] && false !in warms[..i] :: r.cold == Some(sims[i])
      else r == ColdWarm(Some(sims[0]), None)
  {
    hide Mean;
    if |warms| == |sims| {
      FirstTagged(sims, warms, false);
      FirstTagged(sims, warms, true);
    }
  }

  /** Calls `a` up to `b` of a service are one topology's trials: each returned its stats. */
  predicate AreTrials(ops: seq<Op>, a: nat, b: nat) {
    a < b <= |ops| && forall i | a <= i < b :: ReplyTo(ops, i).Returned?
  }

  function Warms(ops: seq<Op>, a: nat, b: nat): seq<bool>
    requires AreTrials(ops, a, b)
  {
    seq(b - a, i requires 0 <= i < b - a => ReplyTo(ops, a + i).stats.warm)
  }

  lemma {:induction false} AllTagged(sims: seq<real>, warms: seq<bool>, warm: bool)
    requires |sims| == |warms| && forall i | 0 <= i < |warms| :: warms[i] == warm
    ensures Tagged(sims, warms, warm) == sims && Tagged(sims, warms, !warm) == []
  {
    if sims == [] {
    } else {
      AllTagged(sims[1..], warms[1..], warm);
      assert sims == [sims[0]] + sims[1..];
    }
  }

  /** Of the trials of one topology on a shared service, the first is cold if it is the service's
      first counted call, and no other is: a later topology on the same service has no cold figure. */
  lemma ColdOnlyOnFirstTopology(ops: seq<Op>, a: nat, b: nat, sims: seq<real>)
    requires AreTrials(ops, a, b) && |sims| == b - a
    ensures FirstCounted(ops, a) ==>
              Split(sims, Warms(ops, a, b)) == ColdWarm(Some(sims[0]), MeanOrNone(sims[1..]))
    ensures !FirstCounted(ops, a) ==>
              Split(sims, Warms(ops, a, b)) == ColdWarm(None, Some(Mean(sims)))
  {
    hide ReplyTo, Run, Sum;
    var warms := Warms(ops, a, b);
    forall i | a <= i < b ensures ReplyTo(ops, i).stats.warm <==> !FirstCounted(ops, i) {
      OnlyTheFirstIsCold(ops, i);
    }
    forall i | a < i < b ensures !FirstCounted(ops, i) {
      assert Counted(ops, a);
    }
    assert forall i | 0 < i < |warms| :: warms[i];
    assert warms[0] <==> !FirstCounted(ops, a);
    if FirstCounted(ops, a) {
      AllTagged(sims[1..], warms[1..], true);
      assert Tagged(sims, warms, false) == [sims[0]] + [];
      assert Tagged(sims, warms, true) == [] + sims[1..] == sims[1..];
    } else {
      AllTagged(sims, warms, true);
    }
  }

  /** Two topologies of one trial each on one service: the second has no cold figure. */
  lemma SecondTopologyHasNoCold()
    ensures
      var ops := [RunOneOp(Ready("a", 7.0), Succeeds), RunOneOp(RunnerRaises, Succeeds)];
      && AreTrials(ops, 0, 1) && Split([2.0], Warms(ops, 0, 1)) == ColdWarm(Some(2.0), None)
      && AreTrials(ops, 1, 2) && Split([3.0], Warms(ops, 1, 2)) == ColdWarm(None, Some(Mean([3.0])))
  {
    var ops := [RunOneOp(Ready("a", 7.0), Succeeds), RunOneOp(RunnerRaises, Succeeds)];
    assert Run(ops, 0) == NEW_SERVICE;
    assert Run(ops, 1) == Lifecycle(Some("a"), Some("a"), 1, 7.0, [Handed("a")]);
    assert ReplyTo(ops, 0) == Returned(Stats(false, 7.0)) && ReplyTo(ops, 1) == Returned(Stats(true, 0.0));
    assert AreTrials(ops, 0, 1) && AreTrials(ops, 1, 2);
    ColdOnlyOnFirstTopology(ops, 0, 1, [2.0]);
    ColdOnlyOnFirstTopology(ops, 1, 2, [3.0]);
    assert Counted(ops, 0);
  }
}

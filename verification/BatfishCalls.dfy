/** The Batfish service as its caller sees it (harness/tools/batfish.py): what is up, what a call replies
    and what it makes the container runner do, read off the calls alone. */
module BatfishCalls {
  import opened Text
  import opened Batfish

  /** Call `i` would bring a container up, and nothing has been closed between it and call `n`. */
  predicate BringsUp(ops: seq<Op>, i: nat, n: nat)
    requires i < n <= |ops|
  {
    !ops[i].CloseOp? && ops[i].launch.Ready? && forall j | i < j < n :: !ops[j].CloseOp?
  }

  predicate UpAt(ops: seq<Op>, n: nat)
    requires n <= |ops|
  {
    exists i | 0 <= i < n :: BringsUp(ops, i, n)
  }

  /** Call `i` is the earliest of those since the last close. */
  predicate BroughtUp(ops: seq<Op>, i: nat, n: nat)
    requires i < n <= |ops|
  {
    BringsUp(ops, i, n) && forall j | 0 <= j < i :: !BringsUp(ops, j, n)
  }

  lemma BringsUpStep(ops: seq<Op>, i: nat, m: nat, n: nat)
    requires i < m && n == m + 1 && n <= |ops|
    ensures BringsUp(ops, i, n) == (BringsUp(ops, i, m) && !ops[m].CloseOp?)
  {
  }

  lemma BringsUpNow(ops: seq<Op>, m: nat, n: nat)
    requires n == m + 1 && n <= |ops|
    ensures BringsUp(ops, m, n) == (!ops[m].CloseOp? && ops[m].launch.Ready?)
  {
  }

  lemma UpStep(ops: seq<Op>, m: nat, n: nat)
    requires n == m + 1 && n <= |ops|
    ensures UpAt(ops, n) <==> !ops[m].CloseOp? && (UpAt(ops, m) || ops[m].launch.Ready?)
  {
    hide BringsUp;
    BringsUpNow(ops, m, n);
    if i :| 0 <= i < n && BringsUp(ops, i, n) {
      if i < m {
        BringsUpStep(ops, i, m, n);
      }
    }
    if i :| 0 <= i < m && BringsUp(ops, i, m) {
      BringsUpStep(ops, i, m, n);
    }
  }

  lemma BroughtUpStep(ops: seq<Op>, i: nat, m: nat, n: nat)
    requires i < m && n == m + 1 && n <= |ops|
    ensures BroughtUp(ops, i, n) == (BroughtUp(ops, i, m) && !ops[m].CloseOp?)
  {
    hide BringsUp;
    forall j: nat | j <= i ensures BringsUp(ops, j, n) == (BringsUp(ops, j, m) && !ops[m].CloseOp?) {
      BringsUpStep(ops, j, m, n);
    }
    if BroughtUp(ops, i, m) && !ops[m].CloseOp? {
      forall j | 0 <= j < i ensures !BringsUp(ops, j, n) {
        assert !BringsUp(ops, j, m);
      }
    }
    if BroughtUp(ops, i, n) {
      forall j | 0 <= j < i ensures !BringsUp(ops, j, m) {
        assert !BringsUp(ops, j, n);
      }
    }
  }

  lemma BroughtUpNow(ops: seq<Op>, m: nat, n: nat)
    requires n == m + 1 && n <= |ops|
    ensures BroughtUp(ops, m, n) == (!ops[m].CloseOp? && ops[m].launch.Ready? && !UpAt(ops, m))
  {
    hide BringsUp;
    BringsUpNow(ops, m, n);
    forall j: nat | j < m ensures BringsUp(ops, j, n) == (BringsUp(ops, j, m) && !ops[m].CloseOp?) {
      BringsUpStep(ops, j, m, n);
    }
    if BringsUp(ops, m, n) && !UpAt(ops, m) {
      forall j | 0 <= j < m ensures !BringsUp(ops, j, n) {
        assert !BringsUp(ops, j, m);
      }
    } else if BringsUp(ops, m, n) {
      var j :| 0 <= j < m && BringsUp(ops, j, m);
      assert BringsUp(ops, j, n);
    }
  }

  /** One call and the container: a close takes it down, a ready launch brings one up if there is none,
      and nothing else, a failed query included, makes a difference. */
  lemma StepContainer(s: Lifecycle, op: Op)
    ensures
      Step(s, op).0.container ==
      if op.CloseOp? then None
      else if s.container.Some? then s.container
      else if op.launch.Ready? then Some(op.launch.id)
      else None
  {
  }

  /** After `n` calls a container is up exactly when one of them brings one up and nothing was closed
      since; it is the one that the earliest such call brought up. */
  lemma {:induction false} ContainerIsUp(ops: seq<Op>, n: nat)
    requires n <= |ops|
    ensures Run(ops, n).container.Some? <==> UpAt(ops, n)
    ensures forall i | 0 <= i < n && BroughtUp(ops, i, n) :: Run(ops, n).container == Some(ops[i].launch.id)
    ensures UpAt(ops, n) ==> exists i | 0 <= i < n :: BroughtUp(ops, i, n)
  {
    hide Step, BringsUp, BroughtUp;
    if n == 0 {
      assert !UpAt(ops, 0);
    } else {
      var m := n - 1;
      ContainerIsUp(ops, m);
      UpStep(ops, m, n);
      BroughtUpNow(ops, m, n);
      StepContainer(Run(ops, m), ops[m]);
      forall i: nat | i < m ensures BroughtUp(ops, i, n) == (BroughtUp(ops, i, m) && !ops[m].CloseOp?) {
        BroughtUpStep(ops, i, m, n);
      }
      ReadyLaunches(ops, m);
      hide UpAt;
      if UpAt(ops, n) && UpAt(ops, m) {
        var i :| 0 <= i < m && BroughtUp(ops, i, m);
        assert BroughtUp(ops, i, n);
      }
    }
  }

  lemma ReadyLaunches(ops: seq<Op>, n: nat)
    requires n <= |ops|
    ensures forall i | 0 <= i < n && BroughtUp(ops, i, n) :: !ops[i].CloseOp? && ops[i].launch.Ready? && UpAt(ops, n)
  {
  }

  /** What a call replies: it raises when no container is up after its start, or when its queries fail. */
  lemma ReplyMeans(ops: seq<Op>, i: nat)
    requires i < |ops|
    ensures
      var op, reply, up := ops[i], ReplyTo(ops, i), UpAt(ops, i + 1);
      && (reply.Done? <==> op.CloseOp? || (op.StartOp? && up))
      && (reply.Raised? <==> !op.CloseOp? && (!up || (op.RunOneOp? && op.work.QueriesRaise?)))
      && (reply.Lost? <==> op.RunOneOp? && up && op.work.StatsWriteRaises?)
      && (reply.Returned? <==> op.RunOneOp? && up && op.work.Succeeds?)
  {
    hide UpAt;
    UpStep(ops, i, i + 1);
    ContainerIsUp(ops, i);
    StepReply(Run(ops, i), ops[i]);
  }

  lemma StepReply(s: Lifecycle, op: Op)
    ensures
      var reply, up := Step(s, op).1, !op.CloseOp? && (s.container.Some? || op.launch.Ready?);
      && (reply.Done? <==> op.CloseOp? || (op.StartOp? && up))
      && (reply.Raised? <==> !op.CloseOp? && (!up || (op.RunOneOp? && op.work.QueriesRaise?)))
      && (reply.Lost? <==> op.RunOneOp? && up && op.work.StatsWriteRaises?)
      && (reply.Returned? <==> op.RunOneOp? && up && op.work.Succeeds?)
  {
  }

  /** So a call gets through exactly when its queries succeed and a container is up after its start. */
  lemma GetsThroughMeans(ops: seq<Op>, i: nat)
    requires i < |ops|
    ensures GetsThrough(ops, i) <==> ops[i].RunOneOp? && !ops[i].work.QueriesRaise? && UpAt(ops, i + 1)
  {
    hide UpAt;
    UpStep(ops, i, i + 1);
    ContainerIsUp(ops, i);
  }

  /** The stats of a call that returns them: cold for the first call that got through, and then with
      the cost of the start before it. */
  lemma StatsMean(ops: seq<Op>, i: nat)
    requires i < |ops| && ReplyTo(ops, i).Returned?
    ensures ReplyTo(ops, i).stats.warm <==> exists j | 0 <= j < i :: GetsThrough(ops, j)
    ensures !ReplyTo(ops, i).stats.warm ==>
              exists k | 0 <= k <= i :: BroughtUp(ops, k, i + 1)
                && ops[k].launch.elapsed == ReplyTo(ops, i).stats.containerStartS
    ensures ReplyTo(ops, i).stats.warm ==> ReplyTo(ops, i).stats.containerStartS == 0.0
  {
    hide Step, BroughtUp, GetsThrough, UpAt;
    CallsAreCounted(ops, i);
    forall j | 0 <= j < i ensures Counted(ops, j) <==> GetsThrough(ops, j) {
      CountedIsThrough(ops, j);
    }
    ReplyMeans(ops, i);
    StatsOfStep(Run(ops, i), ops[i]);
    CostIsOfTheContainer(ops, i + 1);
    ContainerIsUp(ops, i + 1);
  }

  lemma StatsOfStep(s: Lifecycle, op: Op)
    requires Step(s, op).1.Returned?
    ensures
      Step(s, op).1.stats == if s.calls > 0 then Stats(true, 0.0) else Stats(false, Step(s, op).0.containerStartS)
  {
  }

  /** The recorded cost is that of the container that is up. */
  lemma {:induction false} CostIsOfTheContainer(ops: seq<Op>, n: nat)
    requires n <= |ops|
    ensures forall i | 0 <= i < n && BroughtUp(ops, i, n) :: Run(ops, n).containerStartS == ops[i].launch.elapsed
  {
    hide Step, BringsUp, BroughtUp, UpAt;
    if n == 0 {
    } else {
      var m := n - 1;
      CostIsOfTheContainer(ops, m);
      ContainerIsUp(ops, m);
      BroughtUpNow(ops, m, n);
      ReadyLaunches(ops, m);
      forall i: nat | i < m ensures BroughtUp(ops, i, n) == (BroughtUp(ops, i, m) && !ops[m].CloseOp?) {
        BroughtUpStep(ops, i, m, n);
      }
      LaunchIsRecorded(Run(ops, m), ops[m]);
    }
  }

  // ---- the runner's log -------------------------------------------------

  /** Call `i` has the runner hand out container `id`: it gets one, and none was up. */
  predicate HandsOut(ops: seq<Op>, i: nat, id: string)
    requires i < |ops|
  {
    !ops[i].CloseOp? && !ops[i].launch.RunnerRaises? && ops[i].launch.id == id && !UpAt(ops, i)
  }

  /** The calls among the first `n` that have the runner hand out container `id`. */
  function HandOuts(ops: seq<Op>, n: nat, id: string): nat
    requires n <= |ops|
  {
    if n == 0 then 0 else HandOuts(ops, n - 1, id) + (if HandsOut(ops, n - 1, id) then 1 else 0)
  }

  lemma StepHandsOut(s: Lifecycle, op: Op, id: string)
    ensures
      var hands := !op.CloseOp? && !op.launch.RunnerRaises? && op.launch.id == id && s.container.None?;
      Occurrences(Step(s, op).0.log, Handed(id)) == Occurrences(s.log, Handed(id)) + (if hands then 1 else 0)
  {
    hide Occurrences;
    var after := Step(s, op).0.log;
    if op.CloseOp? {
      if s.container.Some? {
        OneMore(s.log, StopAttempted(s.container.value), Handed(id));
      }
    } else if s.container.None? && !op.launch.RunnerRaises? {
      OneMore(s.log, Handed(op.launch.id), Handed(id));
      if op.launch.NotReady? {
        var mid := s.log + [Handed(op.launch.id)];
        OneMore(mid, StopAttempted(op.launch.id), Handed(id));
        assert after == mid + [StopAttempted(op.launch.id)];
      }
    }
  }

  lemma OneMore(log: seq<Event>, last: Event, e: Event)
    ensures Occurrences(log + [last], e) == Occurrences(log, e) + (if last == e then 1 else 0)
  {
    assert (log + [last])[..|log|] == log;
  }

  /** The runner hands containers out on just those calls, and each is stopped once, but for the live one. */
  lemma RunnerLogMeans(ops: seq<Op>, n: nat, id: string)
    requires n <= |ops|
    ensures Occurrences(Run(ops, n).log, Handed(id)) == HandOuts(ops, n, id)
    ensures
      var live := exists i | 0 <= i < n :: BroughtUp(ops, i, n) && ops[i].launch.id == id;
      Occurrences(Run(ops, n).log, StopAttempted(id)) == HandOuts(ops, n, id) - (if live then 1 else 0)
  {
    HandedMeans(ops, n, id);
    EveryRunIsSound(ops, n, id);
    ContainerIsUp(ops, n);
    LiveMeans(ops, n, id);
  }

  lemma LiveMeans(ops: seq<Op>, n: nat, id: string)
    requires n <= |ops|
    ensures Run(ops, n).container == Some(id) <==>
            exists i | 0 <= i < n :: BroughtUp(ops, i, n) && ops[i].launch.id == id
  {
    hide BroughtUp, UpAt;
    ContainerIsUp(ops, n);
    ReadyLaunches(ops, n);
  }

  lemma {:induction false} HandedMeans(ops: seq<Op>, n: nat, id: string)
    requires n <= |ops|
    ensures Occurrences(Run(ops, n).log, Handed(id)) == HandOuts(ops, n, id)
  {
    hide Step, UpAt;
    if n == 0 {
    } else {
      HandedMeans(ops, n - 1, id);
      ContainerIsUp(ops, n - 1);
      StepHandsOut(Run(ops, n - 1), ops[n - 1], id);
    }
  }
}

/** The lifecycle of the long-lived Batfish container (harness/tools/batfish.py): the class that
    starts, uses and stops it, and what holds after any sequence of calls with failures anywhere. */
module Batfish {
  import opened Text

  /** What the container runner sees.  An attempted stop that fails is logged and dropped. */
  datatype Event = Handed(id: string) | StopAttempted(id: string)

  /** How an attempt to bring a container up ends; `elapsed` is the cold-start cost. */
  datatype Launch = RunnerRaises | NotReady(id: string) | Ready(id: string, elapsed: real)

  /** How the work on one snapshot ends: in the staging, queries or FIB files, in the stats file, or well. */
  datatype Work = QueriesRaise | StatsWriteRaises | Succeeds

  datatype Stats = Stats(warm: bool, containerStartS: real)

  /** `Lost` is an exception that leaves after the call was counted, so its stats reach no one. */
  datatype Reply = Done | Raised | Lost(stats: Stats) | Returned(stats: Stats)

  datatype Op = StartOp(launch: Launch) | RunOneOp(launch: Launch, work: Work) | CloseOp

  /** The service's fields and the runner's log.  A session is named by the container it was opened on. */
  datatype Lifecycle = Lifecycle(container: Option<string>, session: Option<string>,
                                 calls: nat, containerStartS: real, log: seq<Event>)

  const NEW_SERVICE := Lifecycle(None, None, 0, 0.0, [])

  // ---- what each call does to the state ---------------------------------

  function Started(s: Lifecycle, launch: Launch): Lifecycle {
    if s.container.Some? then s
    else match launch
      case RunnerRaises => s
      case NotReady(id) => s.(session := None, log := s.log + [Handed(id), StopAttempted(id)])
      case Ready(id, elapsed) =>
        s.(container := Some(id), session := Some(id), containerStartS := elapsed, log := s.log + [Handed(id)])
  }

  function Closed(s: Lifecycle): Lifecycle {
    match s.container
    case None => s
    case Some(id) => s.(container := None, session := None, log := s.log + [StopAttempted(id)])
  }

  function NextStats(s: Lifecycle): Stats {
    if s.calls > 0 then Stats(true, 0.0) else Stats(false, s.containerStartS)
  }

  function Step(s: Lifecycle, op: Op): (Lifecycle, Reply) {
    match op
    case CloseOp => (Closed(s), Done)
    case StartOp(launch) =>
      var up := Started(s, launch);
      (up, if up.container.Some? then Done else Raised)
    case RunOneOp(launch, work) =>
      var up := Started(s, launch);
      if up.container.None? then (up, Raised)
      else match work
        case QueriesRaise => (up, Raised)
        case StatsWriteRaises => (up.(calls := up.calls + 1), Lost(NextStats(up)))
        case Succeeds => (up.(calls := up.calls + 1), Returned(NextStats(up)))
  }

  // ---- the resource invariant -------------------------------------------

  /** The log is a row of containers, each handed out and then stopped once before the next one,
      except that the last may be live. */
  predicate Balanced(log: seq<Event>, live: Option<string>)
    decreases |log|
  {
    if log == [] then live.None?
    else match log[|log| - 1]
      case Handed(id) => live == Some(id) && Balanced(log[..|log| - 1], None)
      case StopAttempted(id) => live.None? && Balanced(log[..|log| - 1], Some(id))
  }

  predicate Sound(s: Lifecycle) {
    s.session == s.container && Balanced(s.log, s.container)
  }

  lemma BalancedHanded(log: seq<Event>, id: string)
    requires Balanced(log, None)
    ensures Balanced(log + [Handed(id)], Some(id))
  {
    assert (log + [Handed(id)])[..|log|] == log;
  }

  lemma BalancedStopped(log: seq<Event>, id: string)
    requires Balanced(log, Some(id))
    ensures Balanced(log + [StopAttempted(id)], None)
  {
    assert (log + [StopAttempted(id)])[..|log|] == log;
  }

  lemma StepKeepsSound(s: Lifecycle, op: Op)
    requires Sound(s)
    ensures Sound(Step(s, op).0)
  {
    match op
    case CloseOp =>
      if s.container.Some? {
        BalancedStopped(s.log, s.container.value);
      }
    case _ =>
      if s.container.None? && !op.launch.RunnerRaises? {
        var id := op.launch.id;
        BalancedHanded(s.log, id);
        BalancedStopped(s.log + [Handed(id)], id);
        assert s.log + [Handed(id)] + [StopAttempted(id)] == s.log + [Handed(id), StopAttempted(id)];
      }
  }

  function Occurrences(log: seq<Event>, e: Event): nat {
    if log == [] then 0
    else Occurrences(log[..|log| - 1], e) + (if log[|log| - 1] == e then 1 else 0)
  }

  /** Every time the runner handed a container out, that container has since been stopped once,
      unless it is the live one. */
  lemma {:induction false} OneStopEach(log: seq<Event>, live: Option<string>, id: string)
    requires Balanced(log, live)
    ensures Occurrences(log, Handed(id))
         == Occurrences(log, StopAttempted(id)) + (if live == Some(id) then 1 else 0)
    decreases |log|
  {
    if log == [] {
    } else {
      var e := log[|log| - 1];
      OneStopEach(log[..|log| - 1], if e.Handed? then None else Some(e.id), id);
    }
  }

  // ---- the class --------------------------------------------------------

  class BatfishService {
    var containerId: Option<string>
    var session: Option<string>
    var calls: nat
    var containerStartS: real
    var events: seq<Event>

    function State(): Lifecycle
      reads this
    {
      Lifecycle(containerId, session, calls, containerStartS, events)
    }

    predicate Valid()
      reads this
    {
      Sound(State())
    }

    constructor ()
      ensures Valid() && State() == NEW_SERVICE
    {
      containerId, session, calls, containerStartS, events := None, None, 0, 0.0, [];
    }

    method Start(launch: Launch) returns (reply: Reply)
      requires Valid()
      modifies this
      ensures Valid() && (State(), reply) == Step(old(State()), StartOp(launch))
    {
      hide Balanced;
      StepKeepsSound(State(), StartOp(launch));
      if containerId.Some? {
        return Done;
      }
      match launch {
        case RunnerRaises =>
          return Raised;
        case NotReady(id) =>
          containerId, events := Some(id), events + [Handed(id)];
          events := events + [StopAttempted(id)];
          containerId, session := None, None;
          assert events == old(events) + [Handed(id), StopAttempted(id)];
          return Raised;
        case Ready(id, elapsed) =>
          containerId, events := Some(id), events + [Handed(id)];
          session := Some(id);
          containerStartS := elapsed;
          return Done;
      }
    }

    method Close()
      requires Valid()
      modifies this
      ensures Valid() && State() == Step(old(State()), CloseOp).0
      ensures containerId.None? && session.None?
    {
      hide Balanced;
      StepKeepsSound(State(), CloseOp);
      if containerId.None? {
        return;
      }
      events := events + [StopAttempted(containerId.value)];
      containerId, session := None, None;
    }

    /** Its own assertion, that a container and a session are there once it is past the start, holds. */
    method RunOne(launch: Launch, work: Work) returns (reply: Reply)
      requires Valid()
      modifies this
      ensures Valid() && (State(), reply) == Step(old(State()), RunOneOp(launch, work))
    {
      hide Balanced;
      if containerId.None? || session.None? {
        var started := Start(launch);
        if started.Raised? {
          return Raised;
        }
      }
      assert containerId.Some? && session == containerId;
      if work.QueriesRaise? {
        return Raised;
      }
      var warm := calls > 0;
      calls := calls + 1;
      var stats := Stats(warm, if warm then 0.0 else containerStartS);
      if work.StatsWriteRaises? {
        return Lost(stats);
      }
      return Returned(stats);
    }
  }

  /** The one-shot wrapper: whatever happens the container it started is stopped once, and any stats
      it returns are cold and carry the whole start-up cost. */
  method RunBatfish(launch: Launch, work: Work) returns (reply: Reply, log: seq<Event>)
    ensures log == match launch
                   case RunnerRaises => []
                   case _ => [Handed(launch.id), StopAttempted(launch.id)]
    ensures reply.Returned? <==> launch.Ready? && work.Succeeds?
    ensures reply.Returned? ==> reply.stats == Stats(false, launch.elapsed)
  {
    hide Balanced;
    var service := new BatfishService();
    reply := service.Start(launch);
    if !reply.Raised? {
      reply := service.RunOne(launch, work);
      service.Close();
    }
    log := service.events;
  }

  // ---- any sequence of calls --------------------------------------------

  function Run(ops: seq<Op>, n: nat): Lifecycle
    requires n <= |ops|
  {
    if n == 0 then NEW_SERVICE else Step(Run(ops, n - 1), ops[n - 1]).0
  }

  function ReplyTo(ops: seq<Op>, i: nat): Reply
    requires i < |ops|
  {
    Step(Run(ops, i), ops[i]).1
  }

  /** Over every sequence of calls, failing wherever they may: container and session are set together,
      and each container handed out was stopped once unless it is the live one. */
  lemma {:induction false} EveryRunIsSound(ops: seq<Op>, n: nat, id: string)
    requires n <= |ops|
    ensures Sound(Run(ops, n))
    ensures Occurrences(Run(ops, n).log, Handed(id))
         == Occurrences(Run(ops, n).log, StopAttempted(id)) + (if Run(ops, n).container == Some(id) then 1 else 0)
  {
    if n == 0 {
    } else {
      EveryRunIsSound(ops, n - 1, id);
      StepKeepsSound(Run(ops, n - 1), ops[n - 1]);
    }
    OneStopEach(Run(ops, n).log, Run(ops, n).container, id);
  }

  predicate Counted(ops: seq<Op>, i: nat)
    requires i < |ops|
  {
    ReplyTo(ops, i).Returned? || ReplyTo(ops, i).Lost?
  }

  function CallsCounted(ops: seq<Op>, n: nat): nat
    requires n <= |ops|
  {
    if n == 0 then 0 else CallsCounted(ops, n - 1) + (if Counted(ops, n - 1) then 1 else 0)
  }

  /** The cold-start costs of the calls among the first `n` that brought a container up. */
  function Starts(ops: seq<Op>, n: nat): seq<real>
    requires n <= |ops|
  {
    if n == 0 then []
    else
      var op := ops[n - 1];
      var starts := Run(ops, n - 1).container.None? && !op.CloseOp? && op.launch.Ready?;
      Starts(ops, n - 1) + (if starts then [op.launch.elapsed] else [])
  }

  function ReturnedCost(ops: seq<Op>, n: nat): real
    requires n <= |ops|
  {
    if n == 0 then 0.0
    else
      var last := ReplyTo(ops, n - 1);
      ReturnedCost(ops, n - 1) + (if last.Returned? then last.stats.containerStartS else 0.0)
  }

  predicate FirstCounted(ops: seq<Op>, k: nat)
    requires k < |ops|
  {
    Counted(ops, k) && forall j | 0 <= j < k :: !Counted(ops, j)
  }

  lemma {:induction false} CallsAreCounted(ops: seq<Op>, n: nat)
    requires n <= |ops|
    ensures Run(ops, n).calls == CallsCounted(ops, n)
    ensures CallsCounted(ops, n) == 0 <==> forall j | 0 <= j < n :: !Counted(ops, j)
  {
    if n == 0 {
    } else {
      CallsAreCounted(ops, n - 1);
    }
  }

  /** A call that is counted is cold exactly when it is the first one counted. */
  lemma {:induction false} OnlyTheFirstIsCold(ops: seq<Op>, i: nat)
    requires i < |ops| && Counted(ops, i)
    ensures !ReplyTo(ops, i).stats.warm <==> FirstCounted(ops, i)
    ensures ReplyTo(ops, i).stats.warm ==> ReplyTo(ops, i).stats.containerStartS == 0.0
  {
    CallsAreCounted(ops, i);
  }

  /** A call that brings a container up records its cost; any other keeps the record and brings none up. */
  lemma LaunchIsRecorded(s: Lifecycle, op: Op)
    ensures
      var after := Step(s, op).0;
      if s.container.None? && !op.CloseOp? && op.launch.Ready? then after.containerStartS == op.launch.elapsed
      else after.containerStartS == s.containerStartS && (after.container.Some? ==> s.container.Some?)
  {
  }

  /** The recorded cost is that of the latest start, and no container is up before a first start. */
  lemma {:induction false} CostIsTheLastStart(ops: seq<Op>, n: nat)
    requires n <= |ops|
    ensures Starts(ops, n) == [] ==> Run(ops, n).container.None?
    ensures Starts(ops, n) != [] ==> Run(ops, n).containerStartS == Starts(ops, n)[|Starts(ops, n)| - 1]
  {
    hide Step;
    if n == 0 {
    } else {
      CostIsTheLastStart(ops, n - 1);
      LaunchIsRecorded(Run(ops, n - 1), ops[n - 1]);
    }
  }

  lemma {:induction false} StartsGrow(ops: seq<Op>, m: nat, n: nat)
    requires m <= n <= |ops|
    ensures Starts(ops, m) <= Starts(ops, n)
  {
    if m == n {
    } else {
      StartsGrow(ops, m, n - 1);
    }
  }

  lemma {:induction false} NothingReturned(ops: seq<Op>, n: nat)
    requires n <= |ops|
    requires forall j | 0 <= j < n :: !Counted(ops, j)
    ensures ReturnedCost(ops, n) == 0.0
  {
    if n == 0 {
    } else {
      assert !Counted(ops, n - 1);
      NothingReturned(ops, n - 1);
    }
  }

  /** The cost returned is that of the first counted call, if its stats were returned. */
  lemma {:induction false} CostOfFirst(ops: seq<Op>, k: nat, n: nat)
    requires k < n <= |ops| && FirstCounted(ops, k)
    ensures ReturnedCost(ops, n)
         == if ReplyTo(ops, k).Returned? then ReplyTo(ops, k).stats.containerStartS else 0.0
  {
    if n == k + 1 {
      NothingReturned(ops, k);
    } else {
      CostOfFirst(ops, k, n - 1);
      if Counted(ops, n - 1) {
        OnlyTheFirstIsCold(ops, n - 1);
      }
    }
  }

  /** Call `i` is a `run_one` whose queries succeed, on a container that is up or comes up. */
  predicate GetsThrough(ops: seq<Op>, i: nat)
    requires i < |ops|
  {
    && ops[i].RunOneOp? && !ops[i].work.QueriesRaise?
    && (Run(ops, i).container.Some? || ops[i].launch.Ready?)
  }

  predicate FirstThrough(ops: seq<Op>, k: nat)
    requires k < |ops|
  {
    GetsThrough(ops, k) && forall j | 0 <= j < k :: !GetsThrough(ops, j)
  }

  /** The calls counted are those that get through; they return if they also write their stats file. */
  lemma CountedIsThrough(ops: seq<Op>, i: nat)
    requires i < |ops|
    ensures Counted(ops, i) <==> GetsThrough(ops, i)
    ensures ReplyTo(ops, i).Returned? <==> GetsThrough(ops, i) && ops[i].work.Succeeds?
  {
  }

  lemma FirstCountedIsThrough(ops: seq<Op>, k: nat)
    requires k < |ops|
    ensures FirstCounted(ops, k) <==> FirstThrough(ops, k)
  {
    hide Counted, GetsThrough;
    forall j | 0 <= j <= k ensures Counted(ops, j) <==> GetsThrough(ops, j) {
      CountedIsThrough(ops, j);
    }
  }

  /** In a lifetime with one successful start, of cost `c`, the returned stats add up to `c` exactly
      when `c` is 0 or the first `run_one` that gets through also writes its stats file. */
  lemma ColdCostReturnedOnce(ops: seq<Op>, c: real)
    requires Starts(ops, |ops|) == [c]
    ensures ReturnedCost(ops, |ops|) == c <==>
            c == 0.0 || exists k | 0 <= k < |ops| :: FirstThrough(ops, k) && ops[k].work.Succeeds?
  {
    hide Counted, GetsThrough, ReplyTo, ReturnedCost, Starts;
    forall k | 0 <= k < |ops| ensures FirstCounted(ops, k) <==> FirstThrough(ops, k) {
      FirstCountedIsThrough(ops, k);
    }
    if forall j | 0 <= j < |ops| :: !Counted(ops, j) {
      NothingReturned(ops, |ops|);
    } else {
      var k := SomeFirst(ops, |ops|);
      CostOfFirst(ops, k, |ops|);
      CountedIsThrough(ops, k);
      OnlyTheFirstIsCold(ops, k);
      CostAtCall(ops, k, c);
      assert forall j | 0 <= j < |ops| && FirstCounted(ops, j) :: j == k;
    }
  }

  function Total(xs: seq<real>): real {
    if xs == [] then 0.0 else Total(xs[..|xs| - 1]) + xs[|xs| - 1]
  }

  /** The start numbered `j` is the one whose cost is returned: the last before the first call that
      gets through, which also writes its stats file. */
  ghost predicate Pays(ops: seq<Op>, j: nat) {
    exists k | 0 <= k < |ops| :: FirstThrough(ops, k) && ops[k].work.Succeeds? && |Starts(ops, k + 1)| == j + 1
  }

  lemma FirstThroughIsOne(ops: seq<Op>, k: nat, l: nat)
    requires k < |ops| && l < |ops| && FirstThrough(ops, k) && FirstThrough(ops, l)
    ensures k == l
  {
  }

  /** The cost returned over any lifetime is that of the start that pays, if one does. */
  lemma ReturnedIsPaid(ops: seq<Op>)
    ensures forall j, l :: Pays(ops, j) && Pays(ops, l) ==> j == l
    ensures forall j: nat :: Pays(ops, j) ==>
              j < |Starts(ops, |ops|)| && ReturnedCost(ops, |ops|) == Starts(ops, |ops|)[j]
    ensures (forall j: nat :: !Pays(ops, j)) ==> ReturnedCost(ops, |ops|) == 0.0
  {
    hide Counted, GetsThrough, ReplyTo, ReturnedCost, Starts, FirstThrough;
    var n := |ops|;
    forall k, l | 0 <= k < n && 0 <= l < n && FirstThrough(ops, k) && FirstThrough(ops, l) ensures k == l {
      FirstThroughIsOne(ops, k, l);
    }
    CallsAreCounted(ops, n);
    if forall j | 0 <= j < n :: !Counted(ops, j) {
      NothingReturned(ops, n);
      forall k | 0 <= k < n ensures !FirstThrough(ops, k) {
        FirstCountedIsThrough(ops, k);
        NotFirstCounted(ops, k);
      }
    } else {
      var k := SomeFirst(ops, n);
      CostOfFirst(ops, k, n);
      FirstCountedIsThrough(ops, k);
      CountedIsThrough(ops, k);
      OnlyTheFirstIsCold(ops, k);
      PaidAtCall(ops, k);
      if ReplyTo(ops, k).Returned? {
        assert Pays(ops, |Starts(ops, k + 1)| - 1);
      }
    }
  }

  lemma NotFirstCounted(ops: seq<Op>, k: nat)
    requires k < |ops| && !Counted(ops, k)
    ensures !FirstCounted(ops, k)
  {
  }

  /** A cold call carries the cost of the latest start. */
  lemma PaidAtCall(ops: seq<Op>, k: nat)
    requires k < |ops| && Counted(ops, k) && !ReplyTo(ops, k).stats.warm
    ensures 0 < |Starts(ops, k + 1)| <= |Starts(ops, |ops|)|
    ensures ReplyTo(ops, k).stats.containerStartS == Starts(ops, |ops|)[|Starts(ops, k + 1)| - 1]
  {
    CostIsTheLastStart(ops, k + 1);
    StartsGrow(ops, k + 1, |ops|);
  }

  /** A sum of terms that are not negative is one of them exactly when the others are 0, and is 0
      exactly when all are. */
  lemma {:induction false} TotalIsOne(xs: seq<real>, j: nat)
    requires j < |xs| && forall i | 0 <= i < |xs| :: xs[i] >= 0.0
    ensures Total(xs) >= xs[j]
    ensures Total(xs) == xs[j] <==> forall i | 0 <= i < |xs| :: i != j ==> xs[i] == 0.0
  {
    var n := |xs| - 1;
    if j == n {
      TotalIsNone(xs[..n]);
    } else {
      TotalIsOne(xs[..n], j);
    }
  }

  lemma {:induction false} TotalIsNone(xs: seq<real>)
    requires forall i | 0 <= i < |xs| :: xs[i] >= 0.0
    ensures Total(xs) >= 0.0 && (Total(xs) == 0.0 <==> forall i | 0 <= i < |xs| :: xs[i] == 0.0)
  {
    if xs == [] {
    } else {
      TotalIsNone(xs[..|xs| - 1]);
    }
  }

  /** Over any lifetime, with any number of starts: the returned stats add up to the cost of all starts
      exactly when every start cost nothing but the one that pays. */
  lemma ColdCostOverAnyLifetime(ops: seq<Op>)
    requires forall i | 0 <= i < |Starts(ops, |ops|)| :: Starts(ops, |ops|)[i] >= 0.0
    ensures ReturnedCost(ops, |ops|) == Total(Starts(ops, |ops|)) <==>
            forall i | 0 <= i < |Starts(ops, |ops|)| :: Pays(ops, i) || Starts(ops, |ops|)[i] == 0.0
  {
    hide Pays, Starts, ReturnedCost;
    var starts := Starts(ops, |ops|);
    ReturnedIsPaid(ops);
    if j: nat :| Pays(ops, j) {
      TotalIsOne(starts, j);
    } else {
      TotalIsNone(starts);
    }
  }

  lemma {:induction false} SomeFirst(ops: seq<Op>, n: nat) returns (k: nat)
    requires n <= |ops| && exists j | 0 <= j < n :: Counted(ops, j)
    ensures k < n && FirstCounted(ops, k)
  {
    if exists j | 0 <= j < n - 1 :: Counted(ops, j) {
      k := SomeFirst(ops, n - 1);
    } else {
      k := n - 1;
    }
  }

  lemma CostAtCall(ops: seq<Op>, k: nat, c: real)
    requires Starts(ops, |ops|) == [c]
    requires k < |ops| && Counted(ops, k) && !ReplyTo(ops, k).stats.warm
    ensures ReplyTo(ops, k).stats.containerStartS == c
  {
    hide Starts, Counted, ReplyTo;
    PaidAtCall(ops, k);
  }

  /** A stats file that cannot be written on the cold call loses the cost for the whole lifetime. */
  lemma ColdCostCanBeLost()
    ensures
      var ops := [RunOneOp(Ready("bf", 7.0), StatsWriteRaises), RunOneOp(RunnerRaises, Succeeds)];
      Starts(ops, 2) == [7.0] && ReplyTo(ops, 1) == Returned(Stats(true, 0.0)) && ReturnedCost(ops, 2) == 0.0
  {
    var ops := [RunOneOp(Ready("bf", 7.0), StatsWriteRaises), RunOneOp(RunnerRaises, Succeeds)];
    assert Run(ops, 0) == NEW_SERVICE;
    assert Run(ops, 1) == Lifecycle(Some("bf"), Some("bf"), 1, 7.0, [Handed("bf")]);
    assert Starts(ops, 1) == [7.0];
    assert ReturnedCost(ops, 1) == 0.0;
    assert Run(ops, 2).container.Some?;
  }

  /** Counting goes on across containers: the first call on a second container is warm, and its
      start-up cost is returned by no call. */
  lemma SecondContainerIsWarm()
    ensures
      var ops := [StartOp(Ready("a", 7.0)), RunOneOp(RunnerRaises, Succeeds), CloseOp,
                  RunOneOp(Ready("b", 5.0), Succeeds)];
      && ReplyTo(ops, 1) == Returned(Stats(false, 7.0)) && ReplyTo(ops, 3) == Returned(Stats(true, 0.0))
      && Starts(ops, 4) == [7.0, 5.0] && ReturnedCost(ops, 4) == 7.0
  {
    var ops := [StartOp(Ready("a", 7.0)), RunOneOp(RunnerRaises, Succeeds), CloseOp,
                RunOneOp(Ready("b", 5.0), Succeeds)];
    assert Run(ops, 0) == NEW_SERVICE && Starts(ops, 0) == [] && ReturnedCost(ops, 0) == 0.0;
    assert Run(ops, 1) == Lifecycle(Some("a"), Some("a"), 0, 7.0, [Handed("a")]);
    assert Starts(ops, 1) == [7.0] && ReturnedCost(ops, 1) == 0.0;
    assert Run(ops, 2) == Run(ops, 1).(calls := 1);
    assert Starts(ops, 2) == [7.0] && ReturnedCost(ops, 2) == 7.0;
    assert Run(ops, 3) == Lifecycle(None, None, 1, 7.0, [Handed("a"), StopAttempted("a")]);
    assert Starts(ops, 3) == [7.0] && ReturnedCost(ops, 3) == 7.0;
  }
}

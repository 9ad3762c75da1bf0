/** One topology end to end (harness/pipeline.py, `run_topology`): what it does, in which order, and
    what it has recorded, whatever any step does. */
module RunTopology {
  import opened Text
  import opened Memory

  datatype Phase = PreDeploy | PostDeploy | PostTeardown | AfterRecovery

  /** Every point at which the run leaves its own code; the poll for recovered memory is the
      measurement of the last phase. */
  datatype Step =
    | Measure(phase: Phase) | AppendLine(phase: Phase) | Headroom | Render | Deploy | Converge | Extract
    | WriteFibs | BatfishHook | HammerheadHook | Diff | Destroy | ListDangling

  datatype Outcome = Fine | ClabError | MemoryGuardError | OtherError

  datatype Sample = Sample(phase: Phase, availableMb: int, rssMb: int, capsMb: int)

  /** The caller's choices, and how every step turns out.  No step is taken twice in a run, so an
      outcome for each step is an arbitrary environment.  For the poll for recovered memory `foreign`
      says whether one of its readings raises; what it concludes otherwise is up to `host`. */
  datatype Env = Env(
    caps: int, multiplier: real, keepLabOnFailure: bool, batfish: bool, hammerhead: bool,
    dangling: bool, availableMb: Phase -> int, rssMb: Phase -> int, host: Host, foreign: Step -> Outcome)

  // ---- how steps end ----------------------------------------------------

  ghost function RecoveryOf(env: Env): (r: Recovery)
    requires Advances(env.host)
    ensures Verdict(env.host, env.availableMb(PreDeploy), BASELINE_SLACK_MB, RECOVERY_TIMEOUT_S, r)
  {
    assert exists r :: Verdict(env.host, env.availableMb(PreDeploy), BASELINE_SLACK_MB, RECOVERY_TIMEOUT_S, r) by {
      VerdictExists(env.host, env.availableMb(PreDeploy), BASELINE_SLACK_MB, RECOVERY_TIMEOUT_S);
    }
    var r :| Verdict(env.host, env.availableMb(PreDeploy), BASELINE_SLACK_MB, RECOVERY_TIMEOUT_S, r);
    r
  }

  lemma VerdictExists(host: Host, baseline: int, slack: int, timeout: int)
    requires Advances(host)
    ensures exists r :: Verdict(host, baseline, slack, timeout, r)
  {
    if baseline < 0 || slack < 0 || timeout <= 0 {
      assert Verdict(host, baseline, slack, timeout, Refused);
    } else {
      var threshold, deadline := baseline - slack, host.start + timeout as real;
      var i := SomeEnd(host, threshold, deadline, timeout, 0);
      assert Verdict(host, baseline, slack, timeout,
                     if host.reading(i) >= threshold then Recovered(host.reading(i)) else TimedOut(host.reading(i)));
    }
  }

  lemma {:induction false} SomeEnd(host: Host, threshold: int, deadline: real, timeout: int, n: nat)
    returns (i: nat)
    requires Advances(host) && deadline == host.start + timeout as real && n <= timeout
    requires host.start + n as real <= host.clock(n)
    requires forall j: nat | j < n :: Waits(host, threshold, deadline, j)
    ensures EndsAt(host, threshold, deadline, i)
    decreases timeout - n
  {
    if Waits(host, threshold, deadline, n) {
      assert Tick(host, n);
      i := SomeEnd(host, threshold, deadline, timeout, n + 1);
    } else {
      i := n;
    }
  }

  ghost function OutcomeOf(env: Env, step: Step): Outcome
    requires Advances(env.host)
  {
    match step
    case Headroom =>
      (match CheckHeadroom(env.caps, env.multiplier, env.availableMb(PreDeploy))
       case BadArgument => OtherError
       case Short(_) => MemoryGuardError
       case Enough => Fine)
    case Measure(AfterRecovery) =>
      (match RecoveryOf(env)
       case Refused => OtherError
       case TimedOut(_) => if env.foreign(step).Fine? then MemoryGuardError else env.foreign(step)
       case Recovered(_) => env.foreign(step))
    case _ => env.foreign(step)
  }

  ghost predicate RecoveryFails(env: Env)
    requires Advances(env.host)
  {
    OutcomeOf(env, Measure(AfterRecovery)).MemoryGuardError?
  }

  /** After a failed destroy or a failed listing by containerlab the clean-up carries on. */
  predicate Tolerates(step: Step, o: Outcome) {
    o.Fine? || ((step.Destroy? || step.ListDangling?) && o.ClabError?)
  }

  ghost predicate GoesOn(env: Env, step: Step)
    requires Advances(env.host)
  {
    Tolerates(step, OutcomeOf(env, step))
  }

  // ---- the steps of a run -----------------------------------------------

  /** Where a step stands in a run; those below `CLEANUP` are the body. */
  function Rank(step: Step): nat {
    match step
    case Measure(PreDeploy) => 0
    case AppendLine(PreDeploy) => 1
    case Measure(PostDeploy) => 5
    case AppendLine(PostDeploy) => 6
    case Measure(PostTeardown) => 14
    case AppendLine(PostTeardown) => 15
    case Measure(AfterRecovery) => 17
    case AppendLine(AfterRecovery) => 18
    case Headroom => 2
    case Render => 3
    case Deploy => 4
    case Converge => 7
    case Extract => 8
    case WriteFibs => 9
    case BatfishHook => 10
    case HammerheadHook => 11
    case Diff => 12
    case Destroy => 13
    case ListDangling => 16
  }

  const CLEANUP: nat := 13
  const END: nat := 19

  function Nth(i: nat): (s: Step)
    requires i < END
    ensures Rank(s) == i
  {
    match i
    case 0 => Measure(PreDeploy)
    case 1 => AppendLine(PreDeploy)
    case 2 => Headroom
    case 3 => Render
    case 4 => Deploy
    case 5 => Measure(PostDeploy)
    case 6 => AppendLine(PostDeploy)
    case 7 => Converge
    case 8 => Extract
    case 9 => WriteFibs
    case 10 => BatfishHook
    case 11 => HammerheadHook
    case 12 => Diff
    case 13 => Destroy
    case 14 => Measure(PostTeardown)
    case 15 => AppendLine(PostTeardown)
    case 16 => ListDangling
    case 17 => Measure(AfterRecovery)
    case 18 => AppendLine(AfterRecovery)
  }

  lemma NthOfRank(s: Step)
    ensures Rank(s) < END && Nth(Rank(s)) == s
  {
  }

  /** A simulator without a hook is not run, and without any there is nothing to compare. */
  predicate Planned(env: Env, step: Step) {
    match step
    case BatfishHook => env.batfish
    case HammerheadHook => env.hammerhead
    case Diff => env.batfish || env.hammerhead
    case _ => true
  }

  /** The planned steps taken from `i` on: up to the first the run does not go on from, which is taken. */
  ghost function Taken(env: Env, i: nat, end: nat): seq<Step>
    requires Advances(env.host) && i <= end <= END
    decreases end - i
  {
    if i == end then []
    else if !Planned(env, Nth(i)) then Taken(env, i + 1, end)
    else [Nth(i)] + (if GoesOn(env, Nth(i)) then Taken(env, i + 1, end) else [])
  }

  /** No planned step in this stretch stops the run. */
  ghost predicate Clear(env: Env, i: nat, end: nat)
    requires Advances(env.host) && i <= end <= END
  {
    forall k: nat | i <= k < end :: Planned(env, Nth(k)) ==> GoesOn(env, Nth(k))
  }

  ghost predicate Passes(env: Env)
    requires Advances(env.host)
  {
    Clear(env, 0, CLEANUP)
  }

  ghost predicate CleansUp(env: Env)
    requires Advances(env.host)
  {
    && Deploy in Taken(env, 0, CLEANUP) && OutcomeOf(env, Deploy).Fine?
    && (Passes(env) || !env.keepLabOnFailure)
  }

  ghost function Trace(env: Env): seq<Step>
    requires Advances(env.host)
  {
    Taken(env, 0, CLEANUP) + (if CleansUp(env) then Taken(env, CLEANUP, END) else [])
  }

  // ---- laws of the trace ------------------------------------------------

  predicate Ascending(steps: seq<Step>) {
    forall i, j | 0 <= i < j < |steps| :: Rank(steps[i]) < Rank(steps[j])
  }

  lemma {:induction false} TakenAscends(env: Env, i: nat, end: nat)
    requires Advances(env.host) && i <= end <= END
    ensures forall s | s in Taken(env, i, end) :: i <= Rank(s) < end
    ensures Ascending(Taken(env, i, end))
    decreases end - i
  {
    hide Nth, Rank, GoesOn, Planned;
    if i == end {
    } else {
      TakenAscends(env, i + 1, end);
      var rest := Taken(env, i + 1, end);
      assert forall k | 0 <= k < |rest| :: rest[k] in rest;
    }
  }

  /** A step is taken exactly when it is planned and no planned step before it stops the run. */
  lemma {:induction false} TakenIff(env: Env, i: nat, end: nat, j: nat)
    requires Advances(env.host) && i <= j < end <= END
    ensures Nth(j) in Taken(env, i, end) <==> Planned(env, Nth(j)) && Clear(env, i, j)
    decreases j - i
  {
    hide Nth, Rank, GoesOn, Planned;
    TakenAscends(env, i + 1, end);
    if i == j {
    } else {
      TakenIff(env, i + 1, end, j);
      assert Clear(env, i, j) <==> (Planned(env, Nth(i)) ==> GoesOn(env, Nth(i))) && Clear(env, i + 1, j);
    }
  }

  /** A run takes its steps in one order and none of them twice, so it measures before the deploy,
      after it, after the teardown and after recovery, in that order. */
  lemma StepsInOrder(env: Env)
    requires Advances(env.host)
    ensures Ascending(Trace(env))
    ensures PhasesAscend(Samples(env, Trace(env)))
  {
    hide Rank, Taken, CleansUp;
    var body, rest := Taken(env, 0, CLEANUP), Taken(env, CLEANUP, END);
    TakenAscends(env, 0, CLEANUP);
    TakenAscends(env, CLEANUP, END);
    assert forall k | 0 <= k < |body| :: body[k] in body;
    assert forall k | 0 <= k < |rest| :: rest[k] in rest;
    SamplesInOrder(env, Trace(env));
  }

  function PhaseRank(phase: Phase): nat {
    match phase
    case PreDeploy => 0
    case PostDeploy => 1
    case PostTeardown => 2
    case AfterRecovery => 3
  }

  predicate PhasesAscend(samples: seq<Sample>) {
    forall i, j | 0 <= i < j < |samples| :: PhaseRank(samples[i].phase) < PhaseRank(samples[j].phase)
  }

  lemma PhaseOfRank(p: Phase, q: Phase)
    ensures Rank(Measure(p)) < Rank(Measure(q)) ==> PhaseRank(p) < PhaseRank(q)
  {
  }

  lemma {:induction false} SamplesInOrder(env: Env, steps: seq<Step>)
    requires Advances(env.host) && Ascending(steps)
    ensures forall s | s in Samples(env, steps) :: Measure(s.phase) in steps
    ensures PhasesAscend(Samples(env, steps))
  {
    hide Rank, OutcomeOf, PhaseRank;
    if steps == [] {
    } else {
      var rest := Samples(env, steps[1..]);
      SamplesInOrder(env, steps[1..]);
      forall j | 0 <= j < |rest| && steps[0].Measure? ensures PhaseRank(steps[0].phase) < PhaseRank(rest[j].phase) {
        assert rest[j] in rest;
        PhaseOfRank(steps[0].phase, rest[j].phase);
      }
    }
  }

  /** A deployment is attempted only after a passed headroom check, with room for every container. */
  lemma DeployIsGuarded(env: Env)
    requires Advances(env.host) && Deploy in Trace(env)
    ensures Headroom in Trace(env) && OutcomeOf(env, Headroom).Fine?
    ensures 0 <= env.caps <= env.availableMb(PreDeploy)
  {
    hide Taken, CleansUp;
    TakenAscends(env, CLEANUP, END);
    TakenIff(env, 0, CLEANUP, 4);
    assert GoesOn(env, Nth(2));
    TakenIff(env, 0, CLEANUP, 2);
    HeadroomCoversCaps(env.caps, env.multiplier, env.availableMb(PreDeploy));
  }

  /** A destroy is attempted exactly when a deploy succeeded and the run passed or is not to keep
      its lab; it is attempted once, by the order above. */
  lemma DestroyFollowsDeploy(env: Env)
    requires Advances(env.host)
    ensures Destroy in Trace(env) <==>
            && Deploy in Trace(env) && OutcomeOf(env, Deploy).Fine?
            && (Passes(env) || !env.keepLabOnFailure)
  {
    hide Taken, Passes, OutcomeOf;
    TakenAscends(env, 0, CLEANUP);
    TakenAscends(env, CLEANUP, END);
    TakenIff(env, CLEANUP, END, 13);
  }

  /** A run that passes calls exactly the simulators the caller gave, and computes a diff exactly when
      there is at least one. */
  lemma HooksOfAPassedRun(env: Env)
    requires Advances(env.host) && Passes(env)
    ensures BatfishHook in Trace(env) <==> env.batfish
    ensures HammerheadHook in Trace(env) <==> env.hammerhead
    ensures Diff in Trace(env) <==> env.batfish || env.hammerhead
  {
    hide Taken, CleansUp, GoesOn;
    TakenAscends(env, CLEANUP, END);
    TakenIff(env, 0, CLEANUP, 10);
    TakenIff(env, 0, CLEANUP, 11);
    TakenIff(env, 0, CLEANUP, 12);
  }

  // ---- samples and the log ----------------------------------------------

  /** The sample of a phase whose measurement succeeds; the last reuses the harness's own first reading. */
  ghost function SampleOf(env: Env, phase: Phase): Sample
    requires Advances(env.host) && OutcomeOf(env, Measure(phase)).Fine?
  {
    match phase
    case AfterRecovery => Sample(phase, RecoveryOf(env).mb, env.rssMb(PreDeploy), env.caps)
    case _ => Sample(phase, env.availableMb(phase), env.rssMb(phase), env.caps)
  }

  ghost function SampleFrom(env: Env, step: Step): seq<Sample>
    requires Advances(env.host)
  {
    if step.Measure? && OutcomeOf(env, step).Fine? then [SampleOf(env, step.phase)] else []
  }

  ghost function LineFrom(env: Env, step: Step): seq<Sample>
    requires Advances(env.host)
  {
    if step.AppendLine? && OutcomeOf(env, step).Fine? then SampleFrom(env, Measure(step.phase)) else []
  }

  ghost function Samples(env: Env, steps: seq<Step>): seq<Sample>
    requires Advances(env.host)
  {
    if steps == [] then [] else SampleFrom(env, steps[0]) + Samples(env, steps[1..])
  }

  ghost function Lines(env: Env, steps: seq<Step>): seq<Sample>
    requires Advances(env.host)
  {
    if steps == [] then [] else LineFrom(env, steps[0]) + Lines(env, steps[1..])
  }

  lemma {:induction false} SamplesConcat(env: Env, a: seq<Step>, b: seq<Step>)
    requires Advances(env.host)
    ensures Samples(env, a + b) == Samples(env, a) + Samples(env, b)
    ensures Lines(env, a + b) == Lines(env, a) + Lines(env, b)
  {
    hide SampleFrom, LineFrom;
    if a == [] {
      assert a + b == b;
    } else {
      assert (a + b)[1..] == a[1..] + b;
      SamplesConcat(env, a[1..], b);
    }
  }

  lemma OneStep(env: Env, s: Step)
    requires Advances(env.host)
    ensures Samples(env, [s]) == SampleFrom(env, s) && Lines(env, [s]) == LineFrom(env, s)
  {
    hide SampleFrom, LineFrom;
    assert [s][1..] == [];
  }

  /** The samples whose line could be written. */
  ghost function Written(env: Env, samples: seq<Sample>): seq<Sample>
    requires Advances(env.host)
  {
    if samples == [] then []
    else
      var line := if OutcomeOf(env, AppendLine(samples[0].phase)).Fine? then [samples[0]] else [];
      line + Written(env, samples[1..])
  }

  lemma {:induction false} WrittenConcat(env: Env, a: seq<Sample>, b: seq<Sample>)
    requires Advances(env.host)
    ensures Written(env, a + b) == Written(env, a) + Written(env, b)
  {
    if a == [] {
      assert a + b == b;
    } else {
      assert (a + b)[1..] == a[1..] + b;
      WrittenConcat(env, a[1..], b);
    }
  }

  lemma {:induction false} WrittenLength(env: Env, samples: seq<Sample>)
    requires Advances(env.host)
    ensures |Written(env, samples)| <= |samples|
    ensures Written(env, samples) == samples <==>
            forall s | s in samples :: OutcomeOf(env, AppendLine(s.phase)).Fine?
  {
    if samples == [] {
    } else {
      WrittenLength(env, samples[1..]);
      assert samples == [samples[0]] + samples[1..];
    }
  }

  lemma PairIsWritten(env: Env, phase: Phase)
    requires Advances(env.host) && GoesOn(env, Measure(phase))
    ensures LineFrom(env, AppendLine(phase)) == Written(env, SampleFrom(env, Measure(phase)))
  {
    assert SampleFrom(env, Measure(phase))[1..] == [];
  }

  /** A measurement, and the append after it if it succeeds, keep the log in step. */
  lemma PairTaken(env: Env, phase: Phase, tail: seq<Step>)
    requires Advances(env.host) && Lines(env, tail) == Written(env, Samples(env, tail))
    ensures
      var t := AppendLine(phase);
      var more := if GoesOn(env, Measure(phase)) then [t] + (if GoesOn(env, t) then tail else []) else [];
      Lines(env, [Measure(phase)] + more) == Written(env, Samples(env, [Measure(phase)] + more))
  {
    var s, t := Measure(phase), AppendLine(phase);
    OneStep(env, s);
    OneStep(env, t);
    if GoesOn(env, s) {
      var end := if GoesOn(env, t) then tail else [];
      SamplesConcat(env, [t], end);
      SamplesConcat(env, [s], [t] + end);
      assert Samples(env, [t] + end) == Samples(env, end);
      assert Lines(env, [s] + ([t] + end)) == Lines(env, [t] + end);
      PairIsWritten(env, phase);
      WrittenConcat(env, SampleFrom(env, s), Samples(env, end));
    } else {
      assert [s] + [] == [s];
    }
  }

  lemma NeitherTaken(env: Env, s: Step, tail: seq<Step>)
    requires Advances(env.host) && Lines(env, tail) == Written(env, Samples(env, tail))
    requires !s.Measure? && !s.AppendLine?
    ensures Lines(env, [s] + tail) == Written(env, Samples(env, [s] + tail))
  {
    OneStep(env, s);
    SamplesConcat(env, [s], tail);
    assert SampleFrom(env, s) + Samples(env, tail) == Samples(env, tail);
    assert LineFrom(env, s) + Lines(env, tail) == Lines(env, tail);
  }

  /** In both parts each measurement is followed by the append of its line, and nothing else appends. */
  lemma {:induction false} LinesTaken(env: Env, i: nat, end: nat)
    requires Advances(env.host) && i <= end && (end == CLEANUP || end == END)
    requires i < end ==> !Nth(i).AppendLine?
    ensures Lines(env, Taken(env, i, end)) == Written(env, Samples(env, Taken(env, i, end)))
    decreases end - i
  {
    hide OutcomeOf, GoesOn, LineFrom, SampleFrom, Written, Rank;
    assert Lines(env, []) == Written(env, Samples(env, [])) by { NothingTaken(env); }
    if i == end {
    } else {
      var s := Nth(i);
      if s.Measure? {
        assert i + 1 < end && Nth(i + 1) == AppendLine(s.phase);
        assert i + 2 < end ==> !Nth(i + 2).AppendLine?;
        LinesTaken(env, i + 2, end);
        PairTaken(env, s.phase, Taken(env, i + 2, end));
      } else {
        assert i + 1 < end ==> !Nth(i + 1).AppendLine?;
        LinesTaken(env, i + 1, end);
        NeitherTaken(env, s, if GoesOn(env, s) then Taken(env, i + 1, end) else []);
      }
    }
  }

  lemma NothingTaken(env: Env)
    requires Advances(env.host)
    ensures Lines(env, []) == Written(env, Samples(env, [])) == []
  {
  }

  /** The log holds, in order, the recorded samples whose line could be written. */
  lemma LogIsWhatWasWritten(env: Env)
    requires Advances(env.host)
    ensures Lines(env, Trace(env)) == Written(env, Samples(env, Trace(env)))
    ensures Lines(env, Trace(env)) == Samples(env, Trace(env)) <==>
            forall s | s in Samples(env, Trace(env)) :: OutcomeOf(env, AppendLine(s.phase)).Fine?
  {
    hide Taken, CleansUp, OutcomeOf;
    var body := Taken(env, 0, CLEANUP);
    var rest := if CleansUp(env) then Taken(env, CLEANUP, END) else [];
    LinesTaken(env, 0, CLEANUP);
    LinesTaken(env, CLEANUP, END);
    SamplesConcat(env, body, rest);
    WrittenConcat(env, Samples(env, body), Samples(env, rest));
    WrittenLength(env, Samples(env, Trace(env)));
  }

  /** A run whose first append fails: one sample is kept, and the log gets no line. */
  lemma LogCanMissASample(env: Env)
    requires Advances(env.host) && env.foreign(Measure(PreDeploy)).Fine? && !env.foreign(AppendLine(PreDeploy)).Fine?
    ensures |Samples(env, Trace(env))| == 1 && Lines(env, Trace(env)) == []
    ensures Trace(env) == [Measure(PreDeploy), AppendLine(PreDeploy)]
  {
    hide RecoveryOf;
    var s, t := Measure(PreDeploy), AppendLine(PreDeploy);
    assert !GoesOn(env, Nth(1));
    TakenIff(env, 0, CLEANUP, 4);
    assert Taken(env, 1, CLEANUP) == [t];
    assert Trace(env) == [s] + [t];
    SamplesConcat(env, [s], [t]);
    OneStep(env, s);
    OneStep(env, t);
  }

  // ---- the run ----------------------------------------------------------

  datatype Status = Passed | Failed

  datatype Note = DestroyFailed | TeardownUnverified | DanglingContainers | MemoryNotRecovered

  class TopologyRunResult {
    var status: Status
    var error: Option<Outcome>
    var notes: seq<Note>
    var memorySamples: seq<Sample>
    var finished: bool

    constructor ()
      ensures status == Failed && error.None? && notes == [] && memorySamples == [] && !finished
    {
      status, error, notes, memorySamples, finished := Failed, None, [], [], false;
    }

    /** Keeps the sample, then appends its line; an append that fails leaves the sample kept. */
    method RecordSample(sample: Sample, world: World, ghost part: Part) returns (o: Outcome)
      requires world.Valid() && InPart(part, AppendLine(sample.phase))
      requires world.OnTrack(part, Rank(AppendLine(sample.phase)))
      requires SampleFrom(world.env, Measure(sample.phase)) == [sample]
      requires Samples(world.env, world.trace) == memorySamples + [sample]
      modifies `memorySamples, world
      ensures world.Valid() && o == OutcomeOf(world.env, AppendLine(sample.phase))
      ensures if o.Fine? then Underway(this, world, part, Rank(AppendLine(sample.phase)) + 1)
              else Stopped(this, world, part, Rank(AppendLine(sample.phase)), o)
    {
      memorySamples := memorySamples + [sample];
      NthOfRank(AppendLine(sample.phase));
      o := world.Append(sample, part);
    }
  }

  /** Everything outside the run: the steps it was asked to take and the memory log on disk. */
  class World {
    const env: Env
    ghost const earlier: seq<Sample>
    var trace: seq<Step>
    var log: seq<Sample>

    constructor (env: Env, earlier: seq<Sample>)
      requires Advances(env.host)
      ensures this.env == env && this.earlier == earlier && trace == [] && log == earlier && Valid()
    {
      this.env, this.earlier := env, earlier;
      trace, log := [], earlier;
    }

    ghost predicate Valid()
      reads this
    {
      Advances(env.host) && log == earlier + Lines(env, trace)
    }

    /** The run has come to `at` without a stop, and the rest of this part's goal is before it. */
    ghost predicate OnTrack(part: Part, at: nat)
      requires Advances(env.host) && part.lo <= at <= part.end <= END
      reads this
    {
      Clear(env, part.lo, at) && trace + Taken(env, at, part.end) == part.goal
    }

    /** Step `at` has stopped the run, and the trace is this part's goal. */
    ghost predicate StoppedAt(part: Part, at: nat)
      requires Advances(env.host) && part.lo <= at < part.end <= END
      reads this
    {
      Clear(env, part.lo, at) && !Clear(env, part.lo, at + 1) && trace == part.goal
    }

    /** A step taken in code outside this repository, or the verdict of one of its own two guards. */
    method Enter(step: Step, ghost part: Part)
      requires Valid() && InPart(part, step) && Planned(env, step)
      requires OnTrack(part, Rank(step)) && !step.AppendLine?
      modifies `trace
      ensures Valid()
      ensures if GoesOn(env, step) then OnTrack(part, Rank(step) + 1) else StoppedAt(part, Rank(step))
      ensures Samples(env, trace) == old(Samples(env, trace)) + SampleFrom(env, step)
    {
      NthOfRank(step);
      Visit(env, trace, step, part.lo, part.end);
      hide Taken, Samples, Lines, OutcomeOf, Clear, SampleFrom;
      trace := trace + [step];
    }

    method Append(sample: Sample, ghost part: Part) returns (o: Outcome)
      requires Valid() && InPart(part, AppendLine(sample.phase))
      requires OnTrack(part, Rank(AppendLine(sample.phase)))
      requires SampleFrom(env, Measure(sample.phase)) == [sample]
      modifies this
      ensures Valid() && o == OutcomeOf(env, AppendLine(sample.phase))
      ensures if o.Fine? then OnTrack(part, Rank(AppendLine(sample.phase)) + 1)
              else StoppedAt(part, Rank(AppendLine(sample.phase)))
      ensures Samples(env, trace) == old(Samples(env, trace))
    {
      var step := AppendLine(sample.phase);
      NthOfRank(step);
      hide Taken, Samples, Lines, Clear, SampleFrom, LineFrom, OutcomeOf, GoesOn, Nth, Rank;
      Visit(env, trace, step, part.lo, part.end);
      AppendFacts(env, sample);
      trace := trace + [step];
      o := env.foreign(step);
      if o.Fine? {
        log := log + [sample];
      }
    }
  }

  /** The steps of one part of a run, and the trace at its end. */
  datatype Part = Part(lo: nat, end: nat, goal: seq<Step>)

  predicate InPart(part: Part, step: Step) {
    part.lo <= Rank(step) < part.end <= END
  }

  ghost predicate Underway(result: TopologyRunResult, world: World, part: Part, at: nat)
    reads result`memorySamples, world
  {
    && world.Valid() && part.lo <= at <= part.end <= END && world.OnTrack(part, at)
    && result.memorySamples == Samples(world.env, world.trace)
  }

  /** Step `at` stopped the run, with outcome `o`. */
  ghost predicate Stopped(result: TopologyRunResult, world: World, part: Part, at: nat, o: Outcome)
    reads result`memorySamples, world
  {
    && world.Valid() && part.lo <= at < part.end <= END && world.StoppedAt(part, at)
    && o == OutcomeOf(world.env, Nth(at))
    && result.memorySamples == Samples(world.env, world.trace)
  }

  /** What taking one more step does to what is left, to the samples and to the log. */
  lemma Visit(env: Env, trace: seq<Step>, step: Step, lo: nat, end: nat)
    requires Advances(env.host) && lo <= Rank(step) < end <= END && Nth(Rank(step)) == step && Planned(env, step)
    requires Clear(env, lo, Rank(step))
    ensures GoesOn(env, step) <==> Clear(env, lo, Rank(step) + 1)
    ensures trace + Taken(env, Rank(step), end)
         == trace + [step] + (if GoesOn(env, step) then Taken(env, Rank(step) + 1, end) else [])
    ensures Samples(env, trace + [step]) == Samples(env, trace) + SampleFrom(env, step)
    ensures Lines(env, trace + [step]) == Lines(env, trace) + LineFrom(env, step)
  {
    hide OutcomeOf, GoesOn, LineFrom, SampleFrom, Planned, Samples, Lines;
    OneStep(env, step);
    SamplesConcat(env, trace, [step]);
  }

  lemma AppendFacts(env: Env, sample: Sample)
    requires Advances(env.host) && SampleFrom(env, Measure(sample.phase)) == [sample]
    ensures
      var step := AppendLine(sample.phase);
      && SampleFrom(env, step) == []
      && LineFrom(env, step) == (if env.foreign(step).Fine? then [sample] else [])
      && OutcomeOf(env, step) == env.foreign(step)
      && (GoesOn(env, step) <==> env.foreign(step).Fine?)
  {
  }

  /** A step that is not planned is passed over. */
  lemma PassOver(result: TopologyRunResult, world: World, part: Part, step: Step)
    requires Underway(result, world, part, Rank(step)) && Rank(step) < part.end && !Planned(world.env, step)
    ensures Underway(result, world, part, Rank(step) + 1)
  {
    NthOfRank(step);
  }

  /** A step that measures nothing. */
  method Do(result: TopologyRunResult, world: World, step: Step, ghost part: Part) returns (o: Outcome)
    requires Underway(result, world, part, Rank(step)) && Rank(step) < part.end && Planned(world.env, step)
    requires !step.Measure? && !step.AppendLine? && !step.Headroom?
    modifies world`trace
    ensures o == world.env.foreign(step)
    ensures if Tolerates(step, o) then Underway(result, world, part, Rank(step) + 1)
            else Stopped(result, world, part, Rank(step), o)
  {
    hide Taken, Samples, Lines, Clear;
    NthOfRank(step);
    world.Enter(step, part);
    o := world.env.foreign(step);
  }

  ghost predicate StoppedInPair(result: TopologyRunResult, world: World, part: Part, phase: Phase, o: Outcome)
    reads result`memorySamples, world
  {
    Stopped(result, world, part, Rank(Measure(phase)), o) || Stopped(result, world, part, Rank(AppendLine(phase)), o)
  }

  method MeasureAndRecord(result: TopologyRunResult, world: World, phase: Phase, ghost part: Part) returns (o: Outcome)
    requires Underway(result, world, part, Rank(Measure(phase))) && Rank(AppendLine(phase)) < part.end
    requires !phase.AfterRecovery?
    modifies world, result`memorySamples
    ensures if o.Fine? then Underway(result, world, part, Rank(AppendLine(phase)) + 1)
            else StoppedInPair(result, world, part, phase, o)
  {
    hide Taken, Samples, Lines, Clear;
    NthOfRank(Measure(phase));
    var env := world.env;
    world.Enter(Measure(phase), part);
    o := env.foreign(Measure(phase));
    if o.Fine? {
      o := result.RecordSample(Sample(phase, env.availableMb(phase), env.rssMb(phase), env.caps), world, part);
    }
  }

  method GuardHeadroom(result: TopologyRunResult, world: World, ghost part: Part) returns (o: Outcome)
    requires Underway(result, world, part, Rank(Headroom)) && Rank(Headroom) < part.end
    modifies world`trace
    ensures if o.Fine? then Underway(result, world, part, Rank(Headroom) + 1)
            else Stopped(result, world, part, Rank(Headroom), o)
  {
    hide Taken, Samples, Lines, Clear;
    world.Enter(Headroom, part);
    match CheckHeadroom(world.env.caps, world.env.multiplier, world.env.availableMb(PreDeploy))
    case BadArgument => o := OtherError;
    case Short(_) => o := MemoryGuardError;
    case Enough => o := Fine;
  }

  method RunHooks(result: TopologyRunResult, world: World, ghost part: Part)
    returns (error: Option<Outcome>, ghost at: nat)
    requires part.end == CLEANUP && Underway(result, world, part, Rank(BatfishHook))
    modifies world`trace
    ensures error.None? ==> Underway(result, world, part, CLEANUP)
    ensures error.Some? ==> error.value != Fine && Stopped(result, world, part, at, error.value) && at > 4
  {
    hide Underway, Stopped, OutcomeOf, GoesOn, Nth, Clear, Samples, Taken, Lines;
    var env := world.env;
    var o;
    if env.batfish {
      o := Do(result, world, BatfishHook, part);
      if !o.Fine? { return Some(o), 10; }
    } else {
      PassOver(result, world, part, BatfishHook);
    }
    if env.hammerhead {
      o := Do(result, world, HammerheadHook, part);
      if !o.Fine? { return Some(o), 11; }
    } else {
      PassOver(result, world, part, HammerheadHook);
    }
    if env.batfish || env.hammerhead {
      o := Do(result, world, Diff, part);
      if !o.Fine? { return Some(o), 12; }
    } else {
      PassOver(result, world, part, Diff);
    }
    return None, 0;
  }

  /** The try block: takes the steps of the body until one raises, and says whether a lab came up. */
  method RunBody(result: TopologyRunResult, world: World, ghost part: Part)
    returns (lab: bool, error: Option<Outcome>, ghost at: nat)
    requires part.lo == 0 && part.end == CLEANUP && Underway(result, world, part, 0)
    modifies result`memorySamples, world
    ensures error.None? ==> lab && Underway(result, world, part, CLEANUP)
    ensures error.Some? ==> error.value != Fine && Stopped(result, world, part, at, error.value) && (lab <==> at > 4)
  {
    hide Underway, Stopped, OutcomeOf, GoesOn, Nth, Clear, Samples, Taken, Lines;
    var env := world.env;
    lab, at := false, 0;
    var o := MeasureAndRecord(result, world, PreDeploy, part);
    if !o.Fine? { return lab, Some(o), if Stopped(result, world, part, 0, o) then 0 else 1; }
    o := GuardHeadroom(result, world, part);
    if !o.Fine? { return lab, Some(o), 2; }
    o := Do(result, world, Render, part);
    if !o.Fine? { return lab, Some(o), 3; }
    o := Do(result, world, Deploy, part);
    if !o.Fine? { return lab, Some(o), 4; }
    lab := true;
    o := MeasureAndRecord(result, world, PostDeploy, part);
    if !o.Fine? { return lab, Some(o), if Stopped(result, world, part, 5, o) then 5 else 6; }
    o := Do(result, world, Converge, part);
    if !o.Fine? { return lab, Some(o), 7; }
    o := Do(result, world, Extract, part);
    if !o.Fine? { return lab, Some(o), 8; }
    o := Do(result, world, WriteFibs, part);
    if !o.Fine? { return lab, Some(o), 9; }
    error, at := RunHooks(result, world, part);
  }

  /** How the clean-up ended: it came to the end, memory did not recover, or step `at` raised. */
  ghost predicate CleanUpEnds(result: TopologyRunResult, world: World, part: Part, at: nat, escaped: Option<Outcome>)
    reads result`memorySamples, world
  {
    if at == END then Underway(result, world, part, END) && escaped.None?
    else if world.Valid() && at == 17 && RecoveryFails(world.env) then
      Stopped(result, world, part, 17, MemoryGuardError) && escaped.None?
    else escaped.Some? && Stopped(result, world, part, at, escaped.value)
  }

  ghost function NotesUpTo(env: Env, at: nat): seq<Note>
    requires Advances(env.host)
  {
    (if env.foreign(Destroy).ClabError? then [DestroyFailed] else [])
    + (if at >= 16 && env.foreign(ListDangling).ClabError? then [TeardownUnverified] else [])
    + (if at >= 16 && env.foreign(ListDangling).Fine? && env.dangling then [DanglingContainers] else [])
    + (if at == 17 && RecoveryFails(env) then [MemoryNotRecovered] else [])
  }

  /** The finally block.  A failed destroy, an unreadable container list and memory that does not come
      back are noted; any other failure escapes from the run. */
  method CleanUp(result: TopologyRunResult, world: World, ghost part: Part)
    returns (escaped: Option<Outcome>, ghost at: nat)
    requires part.lo == CLEANUP && part.end == END && Underway(result, world, part, CLEANUP) && result.notes == []
    modifies result`memorySamples, result`notes, world
    ensures CleanUpEnds(result, world, part, at, escaped) && result.notes == NotesUpTo(world.env, at)
  {
    hide Underway, Stopped, OutcomeOf, GoesOn, Nth, Clear, Samples, Taken, Lines, RecoveryFails;
    var env := world.env;
    var o := Do(result, world, Destroy, part);
    if o.ClabError? {
      result.notes := result.notes + [DestroyFailed];
    } else if !o.Fine? {
      return Some(o), 13;
    }
    o := MeasureAndRecord(result, world, PostTeardown, part);
    if !o.Fine? { return Some(o), if Stopped(result, world, part, 14, o) then 14 else 15; }
    o := Do(result, world, ListDangling, part);
    if o.ClabError? {
      result.notes := result.notes + [TeardownUnverified];
    } else if !o.Fine? {
      return Some(o), 16;
    } else if env.dangling {
      result.notes := result.notes + [DanglingContainers];
    }
    escaped, at := VerifyRecovery(result, world, part);
  }

  method VerifyRecovery(result: TopologyRunResult, world: World, ghost part: Part)
    returns (escaped: Option<Outcome>, ghost at: nat)
    requires part.end == END && Underway(result, world, part, 17)
    modifies result`memorySamples, result`notes, world
    ensures at >= 17 && CleanUpEnds(result, world, part, at, escaped)
    ensures result.notes
         == old(result.notes) + (if at == 17 && RecoveryFails(world.env) then [MemoryNotRecovered] else [])
  {
    hide Clear, Samples, Taken, Lines;
    NthOfRank(Measure(AfterRecovery));
    var env := world.env;
    var baseline := env.availableMb(PreDeploy);
    var recovery, polls := AssertRecovered(env.host, baseline, BASELINE_SLACK_MB, RECOVERY_TIMEOUT_S);
    VerdictIsUnique(env.host, baseline, BASELINE_SLACK_MB, RECOVERY_TIMEOUT_S, recovery, RecoveryOf(env));
    world.Enter(Measure(AfterRecovery), part);
    var reading := env.foreign(Measure(AfterRecovery));
    if recovery != Refused && !reading.Fine? {
      if reading.MemoryGuardError? {
        result.notes := result.notes + [MemoryNotRecovered];
        return None, 17;
      }
      return Some(reading), 17;
    }
    match recovery
    case Refused =>
      return Some(OtherError), 17;
    case TimedOut(_) =>
      result.notes := result.notes + [MemoryNotRecovered];
      return None, 17;
    case Recovered(mb) =>
      var o := result.RecordSample(Sample(AfterRecovery, mb, env.rssMb(PreDeploy), env.caps), world, part);
      if !o.Fine? { return Some(o), 18; }
      return None, END;
  }

  lemma BodyStops(env: Env, at: nat)
    requires Advances(env.host) && at < CLEANUP && Clear(env, 0, at) && !Clear(env, 0, at + 1)
    ensures !Passes(env) && ErrorOf(env) == Some(OutcomeOf(env, Nth(at)))
    ensures Deploy in Taken(env, 0, CLEANUP) && OutcomeOf(env, Deploy).Fine? <==> at > 4
  {
    hide Taken, OutcomeOf, FirstStop;
    FirstStopIs(env, 0, at, CLEANUP);
    TakenIff(env, 0, CLEANUP, 4);
    assert !GoesOn(env, Nth(at));
    assert at > 4 ==> GoesOn(env, Nth(4));
  }

  lemma BodyPasses(env: Env)
    requires Advances(env.host) && Clear(env, 0, CLEANUP)
    ensures Passes(env) && ErrorOf(env).None?
    ensures Deploy in Taken(env, 0, CLEANUP) && OutcomeOf(env, Deploy).Fine?
  {
    hide Taken, OutcomeOf, FirstStop;
    FirstStopIs(env, 0, CLEANUP, CLEANUP);
    TakenIff(env, 0, CLEANUP, 4);
    assert GoesOn(env, Nth(4));
  }

  /** Where the clean-up of a run got to: step `at` stopped it, or nothing did. */
  ghost predicate EndsCleanUp(env: Env, at: nat)
    requires Advances(env.host)
  {
    && CLEANUP <= at <= END && CleansUp(env) && Clear(env, CLEANUP, at)
    && (at < END ==> !Clear(env, CLEANUP, at + 1))
  }

  lemma CleanUpReaches(env: Env, at: nat, step: Step)
    requires Advances(env.host) && EndsCleanUp(env, at) && Rank(step) >= CLEANUP
    ensures step in Trace(env) <==> Rank(step) <= at
    ensures Rank(step) < at ==> GoesOn(env, step)
    ensures Rank(step) == at ==> !GoesOn(env, step)
  {
    hide Taken, CleansUp, GoesOn;
    NthOfRank(step);
    TakenAscends(env, 0, CLEANUP);
    TakenIff(env, CLEANUP, END, Rank(step));
    assert at < END ==> !GoesOn(env, Nth(at));
  }

  lemma NoCleanUp(env: Env, step: Step)
    requires Advances(env.host) && Rank(step) >= CLEANUP && !CleansUp(env)
    ensures step !in Trace(env)
  {
    hide Taken, CleansUp;
    TakenAscends(env, 0, CLEANUP);
  }

  /** When each note is made. */
  ghost predicate Noted(env: Env, note: Note)
    requires Advances(env.host)
  {
    match note
    case DestroyFailed => Destroy in Trace(env) && OutcomeOf(env, Destroy).ClabError?
    case TeardownUnverified => ListDangling in Trace(env) && OutcomeOf(env, ListDangling).ClabError?
    case DanglingContainers => ListDangling in Trace(env) && OutcomeOf(env, ListDangling).Fine? && env.dangling
    case MemoryNotRecovered => Measure(AfterRecovery) in Trace(env) && RecoveryFails(env)
  }

  /** The notes of a run: those made, each once, in the order of the clean-up. */
  ghost function NotesOf(env: Env): seq<Note>
    requires Advances(env.host)
  {
    NoteIf(env, DestroyFailed) + NoteIf(env, TeardownUnverified) + NoteIf(env, DanglingContainers)
    + NoteIf(env, MemoryNotRecovered)
  }

  ghost function NoteIf(env: Env, note: Note): seq<Note>
    requires Advances(env.host)
  {
    if Noted(env, note) then [note] else []
  }

  /** The first planned step from `i` on that stops the run. */
  ghost function FirstStop(env: Env, i: nat, end: nat): Option<Step>
    requires Advances(env.host) && i <= end <= END
    decreases end - i
  {
    if i == end then None
    else if Planned(env, Nth(i)) && !GoesOn(env, Nth(i)) then Some(Nth(i))
    else FirstStop(env, i + 1, end)
  }

  /** The outcome reported as the run's error: that of the first planned step of the body that stops it. */
  ghost function ErrorOf(env: Env): Option<Outcome>
    requires Advances(env.host)
  {
    match FirstStop(env, 0, CLEANUP)
    case None => None
    case Some(s) => Some(OutcomeOf(env, s))
  }

  /** What escapes from the run: the outcome of the first step of the clean-up that stops it, unless
      that is memory that did not recover. */
  ghost function EscapeOf(env: Env): Option<Outcome>
    requires Advances(env.host)
  {
    if !CleansUp(env) then None
    else
      match FirstStop(env, CLEANUP, END)
      case None => None
      case Some(s) => if s == Measure(AfterRecovery) && RecoveryFails(env) then None else Some(OutcomeOf(env, s))
  }

  lemma {:induction false} FirstStopIs(env: Env, i: nat, at: nat, end: nat)
    requires Advances(env.host) && i <= at <= end <= END && Clear(env, i, at)
    requires at < end ==> !Clear(env, i, at + 1)
    ensures FirstStop(env, i, end) == if at < end then Some(Nth(at)) else None
    decreases end - i
  {
    hide Nth, GoesOn, Planned;
    if i == at {
    } else {
      FirstStopIs(env, i + 1, at, end);
    }
  }

  /** No step of the clean-up fails but in a way that is noted. */
  ghost predicate CleanUpHolds(env: Env)
    requires Advances(env.host)
  {
    forall s | s in Trace(env) && Rank(s) >= CLEANUP ::
      GoesOn(env, s) || (s == Measure(AfterRecovery) && RecoveryFails(env))
  }

  lemma NotesOfCleanUp(env: Env, at: nat)
    requires Advances(env.host) && EndsCleanUp(env, at)
    ensures NotesOf(env) == NotesUpTo(env, at)
  {
    hide Taken, CleansUp, Clear, Trace;
    CleanUpReaches(env, at, Destroy);
    CleanUpReaches(env, at, ListDangling);
    CleanUpReaches(env, at, Measure(AfterRecovery));
  }

  lemma EscapeFromCleanUp(env: Env, at: nat)
    requires Advances(env.host) && EndsCleanUp(env, at)
    ensures CleanUpHolds(env) <==> at == END || (at == 17 && RecoveryFails(env))
  {
    hide Taken, CleansUp, Clear, Trace, GoesOn, EndsCleanUp, RecoveryFails;
    CleanUpBounds(env, at);
    forall step: Step | Rank(step) >= CLEANUP
      ensures step in Trace(env) <==> Rank(step) <= at
      ensures Rank(step) < at ==> GoesOn(env, step)
      ensures Rank(step) == at ==> !GoesOn(env, step)
      ensures Rank(step) == 17 ==> step == Measure(AfterRecovery)
    {
      CleanUpReaches(env, at, step);
      NthOfRank(step);
    }
    if at < END {
      CleanUpReaches(env, at, Nth(at));
    } else {
      assert forall step: Step :: Rank(step) < END by {
        forall step: Step ensures Rank(step) < END {
          NthOfRank(step);
        }
      }
    }
  }

  lemma EscapeIs(env: Env, at: nat)
    requires Advances(env.host) && EndsCleanUp(env, at)
    ensures EscapeOf(env)
         == if at == END || (at == 17 && RecoveryFails(env)) then None else Some(OutcomeOf(env, Nth(at)))
  {
    hide FirstStop, CleansUp, Clear, RecoveryFails, OutcomeOf;
    FirstStopIs(env, CLEANUP, at, END);
  }

  lemma CleanUpBounds(env: Env, at: nat)
    requires Advances(env.host) && EndsCleanUp(env, at)
    ensures CLEANUP <= at <= END
  {
  }

  lemma NoNotes(env: Env)
    requires Advances(env.host) && !CleansUp(env)
    ensures CleanUpHolds(env) && EscapeOf(env).None? && NotesOf(env) == []
  {
    hide Taken, CleansUp, Trace;
    forall step: Step | Rank(step) >= CLEANUP ensures step !in Trace(env) {
      NoCleanUp(env, step);
    }
    assert Rank(Destroy) >= CLEANUP && Rank(ListDangling) >= CLEANUP && Rank(Measure(AfterRecovery)) >= CLEANUP;
  }

  lemma BeforeAnyStep(env: Env)
    requires Advances(env.host)
    ensures Clear(env, 0, 0) && Clear(env, CLEANUP, CLEANUP) && Samples(env, []) == []
    ensures Taken(env, END, END) == Taken(env, CLEANUP, CLEANUP) == []
  {
  }

  /** The finally block of the run, once the try block has ended. */
  method Finish(result: TopologyRunResult, world: World, lab: bool) returns (escaped: Option<Outcome>)
    requires world.Valid() && world.trace == Taken(world.env, 0, CLEANUP)
    requires result.memorySamples == Samples(world.env, world.trace) && result.notes == [] && !result.finished
    requires lab <==> Deploy in world.trace && OutcomeOf(world.env, Deploy).Fine?
    requires result.status == Passed <==> Passes(world.env)
    modifies result`memorySamples, result`notes, result`finished, world
    ensures world.Valid() && world.trace == Trace(world.env)
    ensures result.memorySamples == Samples(world.env, world.trace)
    ensures result.notes == NotesOf(world.env)
    ensures escaped == EscapeOf(world.env) && (escaped.None? <==> CleanUpHolds(world.env))
    ensures result.finished <==> escaped.None?
  {
    hide Taken, Samples, Lines, Clear, OutcomeOf, Passes, RecoveryFails, Nth, Rank;
    hide NotesOf, NotesUpTo, EscapeOf, CleanUpHolds;
    var env := world.env;
    BeforeAnyStep(env);
    escaped := None;
    if lab && (result.status == Passed || !env.keepLabOnFailure) {
      ghost var rest := Part(CLEANUP, END, world.trace + Taken(env, CLEANUP, END));
      ghost var at;
      escaped, at := CleanUp(result, world, rest);
      EscapeFromCleanUp(env, at);
      EscapeIs(env, at);
      NotesOfCleanUp(env, at);
    } else {
      NoNotes(env);
    }
    if escaped.None? {
      result.finished := true;
    }
  }

  lemma DeployOutcome(env: Env)
    requires Advances(env.host)
    ensures OutcomeOf(env, Deploy) == env.foreign(Deploy)
  {
  }

  // ---- memory that does not recover -------------------------------------

  lemma {:induction false} NoStopIsClear(env: Env, i: nat, end: nat)
    requires Advances(env.host) && i <= end <= END
    ensures FirstStop(env, i, end).None? <==> Clear(env, i, end)
    decreases end - i
  {
    hide Nth, GoesOn, Planned;
    if i == end {
    } else {
      NoStopIsClear(env, i + 1, end);
      assert Clear(env, i, end) <==> (Planned(env, Nth(i)) ==> GoesOn(env, Nth(i))) && Clear(env, i + 1, end);
    }
  }

  lemma RecoveryStopsCleanUp(env: Env)
    requires Advances(env.host) && Measure(AfterRecovery) in Trace(env) && RecoveryFails(env)
    ensures CleansUp(env) && EscapeOf(env).None?
  {
    hide Taken, RecoveryOf, FirstStop;
    TakenAscends(env, 0, CLEANUP);
    assert Nth(17) == Measure(AfterRecovery);
    TakenIff(env, CLEANUP, END, 17);
    assert !GoesOn(env, Nth(17));
    FirstStopIs(env, CLEANUP, 17, END);
  }

  /** Memory that does not recover is noted and nothing escapes; it does not decide the status, which
      is failed exactly when a planned step of the body stops the run, and so never when the lab is
      kept on failure. */
  lemma RecoveryDoesNotDecide(env: Env)
    requires Advances(env.host) && Measure(AfterRecovery) in Trace(env) && RecoveryFails(env)
    ensures MemoryNotRecovered in NotesOf(env) && EscapeOf(env).None?
    ensures !Passes(env) <==> FirstStop(env, 0, CLEANUP).Some?
    ensures env.keepLabOnFailure ==> Passes(env)
  {
    hide Trace, RecoveryFails, FirstStop, EscapeOf, Passes;
    RecoveryStopsCleanUp(env);
    assert NoteIf(env, MemoryNotRecovered) == [MemoryNotRecovered];
    PassesWithoutStop(env);
  }

  lemma PassesWithoutStop(env: Env)
    requires Advances(env.host)
    ensures Passes(env) <==> FirstStop(env, 0, CLEANUP).None?
  {
    hide FirstStop, Clear;
    NoStopIsClear(env, 0, CLEANUP);
  }

  function LowForever(): Env {
    Env(0, 2.0, false, false, false, false,
        (p: Phase) => if p == PreDeploy then 1000 else 0, (p: Phase) => 0,
        Host(0.0, (i: nat) => 0, (i: nat) => i as real), (s: Step) => Fine)
  }

  lemma NeverRecovers()
    ensures Advances(LowForever().host) && RecoveryFails(LowForever())
    ensures forall s: Step | s != Measure(AfterRecovery) :: OutcomeOf(LowForever(), s) == Fine
  {
    var env := LowForever();
    assert Advances(env.host);
    assert !RecoveryOf(env).Recovered? && !RecoveryOf(env).Refused?;
    assert (0 as real * 2.0).Floor == 0;
  }

  lemma ClearButRecovery(env: Env)
    requires Advances(env.host) && forall s: Step | s != Measure(AfterRecovery) :: OutcomeOf(env, s) == Fine
    ensures Clear(env, 0, CLEANUP) && Clear(env, CLEANUP, 17)
  {
    hide OutcomeOf;
    assert forall k: nat | k < 17 :: Nth(k) != Measure(AfterRecovery);
  }

  /** When every other step is fine a run whose memory does not recover passes, with a note. */
  lemma OnlyRecoveryFails(env: Env)
    requires Advances(env.host) && RecoveryFails(env) && !env.dangling
    requires forall s: Step | s != Measure(AfterRecovery) :: OutcomeOf(env, s) == Fine
    ensures Passes(env) && NotesOf(env) == [MemoryNotRecovered] && EscapeOf(env).None?
  {
    hide OutcomeOf, Clear, Taken, FirstStop, EscapeOf, CleansUp, Trace, GoesOn, RecoveryFails;
    ClearButRecovery(env);
    BodyPasses(env);
    RecoveryIsReached(env);
    RecoveryStopsCleanUp(env);
    assert NoteIf(env, MemoryNotRecovered) == [MemoryNotRecovered];
  }

  lemma RecoveryIsReached(env: Env)
    requires Advances(env.host) && Clear(env, 0, CLEANUP) && Clear(env, CLEANUP, 17)
    ensures Measure(AfterRecovery) in Trace(env)
  {
    hide OutcomeOf, Taken, Clear;
    BodyPasses(env);
    TakenIff(env, CLEANUP, END, 17);
  }

  /** Such a run: every step is fine and available memory stays at zero. */
  lemma PassesWithoutRecovery()
    ensures var env := LowForever();
            && Advances(env.host) && Passes(env) && RecoveryFails(env)
            && NotesOf(env) == [MemoryNotRecovered] && EscapeOf(env).None?
  {
    hide Passes, RecoveryFails, NotesOf, EscapeOf, OutcomeOf;
    NeverRecovers();
    OnlyRecoveryFails(LowForever());
  }

  // ---- the whole run ----------------------------------------------------

  /** One run: it takes exactly the steps of `Trace`, passes exactly when no step of the body fails,
      and keeps its samples and the log in line with what it measured.  When something escapes from
      the clean-up the caller gets that exception in place of the result. */
  method RunTopology(env: Env, log: seq<Sample>)
    returns (result: TopologyRunResult, world: World, escaped: Option<Outcome>)
    requires Advances(env.host)
    ensures fresh(result) && fresh(world) && world.env == env
    ensures world.trace == Trace(env)
    ensures Destroy in world.trace <==>
            && Deploy in world.trace && env.foreign(Deploy).Fine?
            && (result.status == Passed || !env.keepLabOnFailure)
    ensures (result.status == Passed <==> Passes(env)) && (result.error.None? <==> Passes(env))
    ensures result.status == Passed ==>
              && (BatfishHook in world.trace <==> env.batfish)
              && (HammerheadHook in world.trace <==> env.hammerhead)
              && (Diff in world.trace <==> env.batfish || env.hammerhead)
    ensures result.error == ErrorOf(env)
    ensures result.memorySamples == Samples(env, Trace(env))
    ensures world.log == log + Lines(env, Trace(env))
    ensures result.notes == NotesOf(env)
    ensures escaped == EscapeOf(env) && (escaped.None? <==> CleanUpHolds(env))
    ensures result.finished <==> escaped.None?
  {
    hide Taken, Samples, Lines, Clear, OutcomeOf, Passes, Nth, Rank, Trace, NotesOf, EscapeOf, ErrorOf, CleanUpHolds;
    BeforeAnyStep(env);
    result := new TopologyRunResult();
    world := new World(env, log);
    ghost var body := Part(0, CLEANUP, Taken(env, 0, CLEANUP));
    ghost var at: nat;
    var lab, error;
    lab, error, at := RunBody(result, world, body);
    if error.None? {
      BodyPasses(env);
      HooksOfAPassedRun(env);
      result.status := Passed;
    } else {
      BodyStops(env, at);
      result.error := error;
    }
    escaped := Finish(result, world, lab);
    DestroyFollowsDeploy(env);
    assert OutcomeOf(env, Deploy) == env.foreign(Deploy) by { DeployOutcome(env); }
  }
}

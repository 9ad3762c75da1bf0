/** The run of one topology against a list of its steps written out, and what decides its outcome, in
    terms of how each step turns out (harness/pipeline.py, `run_topology`). */
module RunPlan {
  import opened Memory
  import opened Text
  import opened RunTopology

  // ---- the steps, written out -------------------------------------------

  const BODY_STEPS := [
    Measure(PreDeploy), AppendLine(PreDeploy), Headroom, Render, Deploy, Measure(PostDeploy),
    AppendLine(PostDeploy), Converge, Extract, WriteFibs]

  const CLEANUP_STEPS := [
    Destroy, Measure(PostTeardown), AppendLine(PostTeardown), ListDangling, Measure(AfterRecovery),
    AppendLine(AfterRecovery)]

  function HookSteps(batfish: bool, hammerhead: bool): seq<Step> {
    if batfish && hammerhead then [BatfishHook, HammerheadHook, Diff]
    else if batfish then [BatfishHook, Diff]
    else if hammerhead then [HammerheadHook, Diff]
    else []
  }

  /** The steps of a plan up to the first the run does not go on from. */
  ghost function UpToFailure(env: Env, plan: seq<Step>): seq<Step>
    requires Advances(env.host)
  {
    if plan == [] then []
    else [plan[0]] + (if GoesOn(env, plan[0]) then UpToFailure(env, plan[1..]) else [])
  }

  lemma BodyStepAt(i: nat)
    requires i < 10
    ensures BODY_STEPS[i] == Nth(i)
  {
  }

  lemma CleanUpStepAt(i: nat)
    requires i < 6
    ensures CLEANUP_STEPS[i] == Nth(CLEANUP + i)
  {
  }

  lemma HooksTakenAre(env: Env)
    requires Advances(env.host)
    ensures Taken(env, 10, CLEANUP) == UpToFailure(env, HookSteps(env.batfish, env.hammerhead))
  {
    hide GoesOn;
    var hooks := HookSteps(env.batfish, env.hammerhead);
    assert UpToFailure(env, []) == [];
    assert Taken(env, 13, CLEANUP) == [];
    assert Taken(env, 12, CLEANUP) == UpToFailure(env, if env.batfish || env.hammerhead then [Diff] else []) by {
      assert [Diff][1..] == [];
    }
    assert Taken(env, 11, CLEANUP) == UpToFailure(env, if env.hammerhead then [HammerheadHook, Diff]
                                                       else if env.batfish then [Diff] else []) by {
      assert [HammerheadHook, Diff][1..] == [Diff];
    }
    if env.batfish {
      assert hooks[0] == BatfishHook && hooks[1..] == if env.hammerhead then [HammerheadHook, Diff] else [Diff];
    }
  }

  lemma {:induction false} BodyTakenIs(env: Env, i: nat)
    requires Advances(env.host) && i <= 10
    ensures var hooks := HookSteps(env.batfish, env.hammerhead);
            Taken(env, i, CLEANUP) == UpToFailure(env, BODY_STEPS[i..] + hooks)
    decreases 10 - i
  {
    hide GoesOn, HookSteps;
    var hooks := HookSteps(env.batfish, env.hammerhead);
    if i == 10 {
      HooksTakenAre(env);
      assert BODY_STEPS[i..] + hooks == hooks;
    } else {
      BodyStepAt(i);
      BodyTakenIs(env, i + 1);
      var plan := BODY_STEPS[i..] + hooks;
      assert plan[0] == Nth(i) && plan[1..] == BODY_STEPS[i + 1..] + hooks;
    }
  }

  lemma {:induction false} CleanUpTakenIs(env: Env, i: nat)
    requires Advances(env.host) && i <= 6
    ensures Taken(env, CLEANUP + i, END) == UpToFailure(env, CLEANUP_STEPS[i..])
    decreases 6 - i
  {
    hide GoesOn;
    if i == 6 {
    } else {
      CleanUpStepAt(i);
      CleanUpTakenIs(env, i + 1);
      assert CLEANUP_STEPS[i..][1..] == CLEANUP_STEPS[i + 1..];
    }
  }

  /** A run takes the listed steps of its body up to the first that fails, and then, if a lab came up
      and is not kept, those of the clean-up in the same way. */
  lemma TraceIsThePlan(env: Env)
    requires Advances(env.host)
    ensures Trace(env) == UpToFailure(env, BODY_STEPS + HookSteps(env.batfish, env.hammerhead))
                          + (if CleansUp(env) then UpToFailure(env, CLEANUP_STEPS) else [])
  {
    hide Taken, UpToFailure, CleansUp, HookSteps;
    BodyTakenIs(env, 0);
    CleanUpTakenIs(env, 0);
    assert BODY_STEPS[0..] == BODY_STEPS && CLEANUP_STEPS[0..] == CLEANUP_STEPS;
  }

  // ---- when a run passes ------------------------------------------------

  lemma ClearStep(env: Env, i: nat, end: nat)
    requires Advances(env.host) && i < end <= END
    ensures Clear(env, i, end) <==> (Planned(env, Nth(i)) ==> GoesOn(env, Nth(i))) && Clear(env, i + 1, end)
  {
    hide Nth, GoesOn, Planned;
  }

  lemma {:induction false} FixedStepsClear(env: Env, i: nat)
    requires Advances(env.host) && i <= 10
    ensures Clear(env, i, CLEANUP) <==>
            (forall j | i <= j < 10 :: GoesOn(env, BODY_STEPS[j])) && Clear(env, 10, CLEANUP)
    decreases 10 - i
  {
    hide GoesOn, Clear;
    if i == 10 {
    } else {
      BodyStepAt(i);
      ClearStep(env, i, CLEANUP);
      FixedStepsClear(env, i + 1);
    }
  }

  lemma HooksClear(env: Env)
    requires Advances(env.host)
    ensures Clear(env, 10, CLEANUP) <==>
            && (env.batfish ==> env.foreign(BatfishHook).Fine?)
            && (env.hammerhead ==> env.foreign(HammerheadHook).Fine?)
            && (env.batfish || env.hammerhead ==> env.foreign(Diff).Fine?)
  {
    hide Clear;
    ClearStep(env, 10, CLEANUP);
    ClearStep(env, 11, CLEANUP);
    ClearStep(env, 12, CLEANUP);
    assert Clear(env, 13, CLEANUP) by { NothingToClear(env, CLEANUP); }
  }

  lemma NothingToClear(env: Env, i: nat)
    requires Advances(env.host) && i <= END
    ensures Clear(env, i, i)
  {
  }

  lemma BodyStepGoesOn(env: Env, s: Step)
    requires Advances(env.host) && s in BODY_STEPS && s != Headroom
    ensures GoesOn(env, s) <==> env.foreign(s).Fine?
  {
  }

  lemma HeadroomGoesOn(env: Env)
    requires Advances(env.host)
    ensures GoesOn(env, Headroom) <==>
            && env.caps >= 0 && env.multiplier >= 1.0
            && env.caps as real * env.multiplier - env.availableMb(PreDeploy) as real < 1.0
  {
    HeadroomMeans(env.caps, env.multiplier, env.availableMb(PreDeploy));
  }

  /** A run passes exactly when there is room for the containers and none of the steps it was given
      fails; what the clean-up does is not asked. */
  lemma PassesMeans(env: Env)
    requires Advances(env.host)
    ensures Passes(env) <==>
            && env.caps >= 0 && env.multiplier >= 1.0
            && env.caps as real * env.multiplier - env.availableMb(PreDeploy) as real < 1.0
            && (forall s | s in BODY_STEPS && s != Headroom :: env.foreign(s).Fine?)
            && (env.batfish ==> env.foreign(BatfishHook).Fine?)
            && (env.hammerhead ==> env.foreign(HammerheadHook).Fine?)
            && (env.batfish || env.hammerhead ==> env.foreign(Diff).Fine?)
  {
    hide GoesOn, Clear;
    FixedStepsClear(env, 0);
    HooksClear(env);
    HeadroomGoesOn(env);
    assert BODY_STEPS[2] == Headroom;
    forall s | s in BODY_STEPS && s != Headroom ensures GoesOn(env, s) <==> env.foreign(s).Fine? {
      BodyStepGoesOn(env, s);
    }
  }

  // ---- how the two guards end -------------------------------------------

  /** A failed headroom check is a memory-guard error, and bad arguments are an error of another kind. */
  lemma HeadroomOutcome(env: Env)
    requires Advances(env.host)
    ensures
      var o, badArguments := OutcomeOf(env, Headroom), env.caps < 0 || env.multiplier < 1.0;
      && (o == OtherError <==> badArguments)
      && (o == MemoryGuardError <==>
            !badArguments && env.caps as real * env.multiplier >= env.availableMb(PreDeploy) as real + 1.0)
      && o != ClabError
  {
    HeadroomMeans(env.caps, env.multiplier, env.availableMb(PreDeploy));
  }

  /** The poll, if none of its readings raises: memory has recovered when a reading comes within 500 MB
      of the first sample before 30 s are over. */
  lemma RecoveryOutcome(env: Env)
    requires Advances(env.host) && env.availableMb(PreDeploy) >= 0 && env.foreign(Measure(AfterRecovery)).Fine?
    ensures OutcomeOf(env, Measure(AfterRecovery)) ==
            if exists i: nat :: RecoversAt(env.host, env.availableMb(PreDeploy), 500, 30, i) then Fine
            else MemoryGuardError
  {
    VerdictMeans(env.host, env.availableMb(PreDeploy), 500, 30, RecoveryOf(env));
  }

  // ---- what escapes from the clean-up -----------------------------------

  lemma {:induction false} StopsBefore(env: Env, i: nat, j: nat, end: nat)
    requires Advances(env.host) && i <= j <= end <= END && !Clear(env, i, j)
    ensures FirstStop(env, i, end).Some? && i <= Rank(FirstStop(env, i, end).value) < j
    decreases j - i
  {
    hide GoesOn, Nth, Rank, Planned, Clear;
    if i == j {
      NothingToClear(env, i);
    } else {
      ClearStep(env, i, j);
      if Planned(env, Nth(i)) && !GoesOn(env, Nth(i)) {
      } else {
        StopsBefore(env, i + 1, j, end);
      }
    }
  }

  lemma ClearBeforeRecovery(env: Env)
    requires Advances(env.host)
    ensures Clear(env, CLEANUP, 17) <==>
            && env.foreign(Destroy) in {Fine, ClabError}
            && env.foreign(Measure(PostTeardown)).Fine? && env.foreign(AppendLine(PostTeardown)).Fine?
            && env.foreign(ListDangling) in {Fine, ClabError}
  {
    hide Clear;
    ClearStep(env, 13, 17);
    ClearStep(env, 14, 17);
    ClearStep(env, 15, 17);
    ClearStep(env, 16, 17);
    NothingToClear(env, 17);
  }

  /** Nothing escapes from a clean-up exactly when destroying and listing end well or in an error of
      containerlab, the sample between them is taken and logged, and memory either does not recover
      or recovers and is logged. */
  lemma EscapesWhen(env: Env)
    requires Advances(env.host) && CleansUp(env)
    ensures EscapeOf(env).None? <==>
            && env.foreign(Destroy) in {Fine, ClabError}
            && env.foreign(Measure(PostTeardown)).Fine? && env.foreign(AppendLine(PostTeardown)).Fine?
            && env.foreign(ListDangling) in {Fine, ClabError}
            && var recovery := OutcomeOf(env, Measure(AfterRecovery));
               recovery == MemoryGuardError || (recovery.Fine? && env.foreign(AppendLine(AfterRecovery)).Fine?)
  {
    hide CleansUp, Clear, FirstStop, RecoveryOf;
    ClearBeforeRecovery(env);
    if !Clear(env, CLEANUP, 17) {
      StopsBefore(env, CLEANUP, 17, END);
    } else {
      NothingToClear(env, 17);
      RecoveryStops(env);
    }
  }

  lemma RecoveryStops(env: Env)
    requires Advances(env.host) && Clear(env, CLEANUP, 17)
    ensures
      var s, t := Measure(AfterRecovery), AppendLine(AfterRecovery);
      FirstStop(env, CLEANUP, END) ==
      if !OutcomeOf(env, s).Fine? then Some(s) else if !env.foreign(t).Fine? then Some(t) else None
  {
    hide FirstStop, RecoveryOf;
    if !GoesOn(env, Nth(17)) {
      FirstStopIs(env, CLEANUP, 17, END);
    } else if !GoesOn(env, Nth(18)) {
      FirstStopIs(env, CLEANUP, 18, END);
    } else {
      FirstStopIs(env, CLEANUP, 19, END);
    }
  }

  lemma CleanUpIsComplete(env: Env)
    requires Advances(env.host) && CleansUp(env) && Clear(env, CLEANUP, 17)
    ensures Destroy in Trace(env) && ListDangling in Trace(env) && Measure(AfterRecovery) in Trace(env)
  {
    hide CleansUp, Taken, GoesOn;
    TakenIff(env, CLEANUP, END, 13);
    TakenIff(env, CLEANUP, END, 16);
    TakenIff(env, CLEANUP, END, 17);
  }

  /** The notes of a run that returns its result: none without a clean-up, and otherwise one for each
      thing that did not go well in it. */
  lemma NotesMean(env: Env)
    requires Advances(env.host) && EscapeOf(env).None?
    ensures DestroyFailed in NotesOf(env) <==> CleansUp(env) && env.foreign(Destroy) == ClabError
    ensures TeardownUnverified in NotesOf(env) <==> CleansUp(env) && env.foreign(ListDangling) == ClabError
    ensures DanglingContainers in NotesOf(env) <==> CleansUp(env) && env.foreign(ListDangling).Fine? && env.dangling
    ensures MemoryNotRecovered in NotesOf(env) <==>
            CleansUp(env) && OutcomeOf(env, Measure(AfterRecovery)) == MemoryGuardError
  {
    hide CleansUp, Clear, EscapeOf, Trace, RecoveryOf;
    if !CleansUp(env) {
      NoNotes(env);
    } else {
      EscapesWhen(env);
      ClearBeforeRecovery(env);
      CleanUpIsComplete(env);
    }
  }

  // ---- what is reported and what escapes --------------------------------

  /** Step `n` is the first of the plan that the run does not go on from. */
  ghost predicate FailsAt(env: Env, plan: seq<Step>, n: nat)
    requires Advances(env.host)
  {
    n < |plan| && !GoesOn(env, plan[n]) && forall i | 0 <= i < n :: GoesOn(env, plan[i])
  }

  /** The last step taken is that step, or the plan's last one if there is none. */
  lemma {:induction false} LastStepTaken(env: Env, plan: seq<Step>)
    requires Advances(env.host) && plan != []
    ensures UpToFailure(env, plan) != [] && UpToFailure(env, plan) <= plan
    ensures
      var last := |UpToFailure(env, plan)| - 1;
      FailsAt(env, plan, last) || (last == |plan| - 1 && forall i | 0 <= i < |plan| :: GoesOn(env, plan[i]))
  {
    hide GoesOn;
    var rest := plan[1..];
    assert plan == [plan[0]] + rest;
    if GoesOn(env, plan[0]) && rest != [] {
      LastStepTaken(env, rest);
      var last := |UpToFailure(env, rest)| - 1;
      assert |UpToFailure(env, plan)| - 1 == last + 1;
      assert forall i | 0 < i < |plan| :: plan[i] == rest[i - 1];
    }
  }

  lemma {:induction false} LastTakenStops(env: Env, i: nat, end: nat)
    requires Advances(env.host) && i <= end <= END
    ensures FirstStop(env, i, end).Some? ==>
              && Taken(env, i, end) != []
              && Taken(env, i, end)[|Taken(env, i, end)| - 1] == FirstStop(env, i, end).value
    decreases end - i
  {
    hide Nth, GoesOn, Planned;
    if i == end {
    } else {
      LastTakenStops(env, i + 1, end);
    }
  }

  /** The error of a run that does not pass is how the last step of its body ended. */
  lemma ErrorMeans(env: Env)
    requires Advances(env.host)
    ensures ErrorOf(env).None? <==> Passes(env)
    ensures
      var body := UpToFailure(env, BODY_STEPS + HookSteps(env.batfish, env.hammerhead));
      body != [] && (!Passes(env) ==> ErrorOf(env) == Some(OutcomeOf(env, body[|body| - 1])))
  {
    hide Taken, UpToFailure, FirstStop, HookSteps, Passes, OutcomeOf;
    PassesWithoutStop(env);
    LastTakenStops(env, 0, CLEANUP);
    BodyTakenIs(env, 0);
    assert BODY_STEPS[0..] == BODY_STEPS;
    LastStepTaken(env, BODY_STEPS + HookSteps(env.batfish, env.hammerhead));
  }

  /** What escapes from a clean-up is how its last step ended, but for memory that does not recover. */
  lemma EscapeMeans(env: Env)
    requires Advances(env.host) && EscapeOf(env).Some?
    ensures
      var steps := UpToFailure(env, CLEANUP_STEPS);
      CleansUp(env) && steps != [] && EscapeOf(env) == Some(OutcomeOf(env, steps[|steps| - 1]))
  {
    hide Taken, UpToFailure, FirstStop, CleansUp, OutcomeOf, RecoveryFails;
    LastTakenStops(env, CLEANUP, END);
    CleanUpTakenIs(env, 0);
    assert CLEANUP_STEPS[0..] == CLEANUP_STEPS;
    LastStepTaken(env, CLEANUP_STEPS);
  }

  // ---- samples ----------------------------------------------------------

  /** Every sample has the sum of the containers' caps.  The last one reports a reading within 500 MB
      of the first sample, and the harness's own memory as it was then; the others what was measured. */
  lemma {:induction false} SampleLaws(env: Env, steps: seq<Step>, s: Sample)
    requires Advances(env.host) && s in Samples(env, steps)
    ensures s.capsMb == env.caps
    ensures s.phase != AfterRecovery ==> s.availableMb == env.availableMb(s.phase) && s.rssMb == env.rssMb(s.phase)
    ensures s.phase == AfterRecovery ==>
              && s.rssMb == env.rssMb(PreDeploy) && s.availableMb >= env.availableMb(PreDeploy) - 500
              && exists i: nat :: env.host.reading(i) == s.availableMb
  {
    if s in Samples(env, steps[1..]) {
      SampleLaws(env, steps[1..], s);
    } else {
      OneSampleLaws(env, steps[0], s);
    }
  }

  lemma OneSampleLaws(env: Env, step: Step, s: Sample)
    requires Advances(env.host) && s in SampleFrom(env, step)
    ensures s.capsMb == env.caps
    ensures s.phase != AfterRecovery ==> s.availableMb == env.availableMb(s.phase) && s.rssMb == env.rssMb(s.phase)
    ensures s.phase == AfterRecovery ==>
              && s.rssMb == env.rssMb(PreDeploy) && s.availableMb >= env.availableMb(PreDeploy) - 500
              && exists i: nat :: env.host.reading(i) == s.availableMb
  {
    hide Verdict;
    if s.phase == AfterRecovery {
      var r := RecoveryOf(env);
      VerdictMeans(env.host, env.availableMb(PreDeploy), 500, 30, r);
      var i: nat :| RecoversAt(env.host, env.availableMb(PreDeploy), 500, 30, i);
    }
  }

  lemma {:induction false} SampledIff(env: Env, steps: seq<Step>, phase: Phase)
    requires Advances(env.host)
    ensures (exists s :: s in Samples(env, steps) && s.phase == phase) <==>
            Measure(phase) in steps && OutcomeOf(env, Measure(phase)).Fine?
  {
    hide OutcomeOf;
    if steps == [] {
    } else {
      SampledIff(env, steps[1..], phase);
      var first, rest := SampleFrom(env, steps[0]), Samples(env, steps[1..]);
      assert forall s :: s in Samples(env, steps) <==> s in first || s in rest;
      assert (exists s :: s in first && s.phase == phase) <==>
             steps[0] == Measure(phase) && OutcomeOf(env, steps[0]).Fine? by {
        if steps[0] == Measure(phase) && OutcomeOf(env, steps[0]).Fine? {
          assert first[0] == SampleOf(env, phase) && first[0] in first;
        }
      }
      assert steps == [steps[0]] + steps[1..];
    }
  }
}

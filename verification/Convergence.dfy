/** The convergence poll loop shared by the FRR and cEOS adapters (harness/adapters/frr.py,
    harness/adapters/ceos.py), against an environment that fixes every reading it takes. */
module Convergence {
  import opened Text

  const SAMPLE_INTERVAL: real := 15.0

  /** What one round of queries yields: a failed query, sessions not up, or a route count. */
  datatype Poll = Failed | NotOk | Ok(count: int)

  /** `guard(i)` is the clock at the loop test before poll i, `stamp(i)` the clock right after it. */
  datatype Env = Env(start: real, guard: nat -> real, poll: nat -> Poll, stamp: nat -> real)

  function SleepAfter(p: Poll): real {
    match p
    case Failed => 1.0
    case NotOk => 2.0
    case Ok(_) => SAMPLE_INTERVAL
  }

  /** Round `i` takes no negative time and the sleep after it at least a second. */
  ghost predicate Tick(env: Env, i: nat) {
    env.guard(i) <= env.stamp(i) && env.stamp(i) + 1.0 <= env.guard(i + 1)
  }

  /** The clock never runs backwards and every sleep takes at least a second. */
  ghost predicate Advances(env: Env) {
    env.start <= env.guard(0) && forall i: nat :: Tick(env, i)
  }

  ghost predicate FullSleep(env: Env, i: nat) {
    env.stamp(i) + SleepAfter(env.poll(i)) <= env.guard(i + 1)
  }

  /** Every sleep takes at least the time asked for. */
  ghost predicate SleepsInFull(env: Env) {
    forall i: nat :: FullSleep(env, i)
  }

  /** Poll `m` ends a window: from `w` on every poll that does not fail is ok with one count, `s` is
      the second such poll, and at least 15 s lie between `s` and `m`. */
  ghost predicate Window(env: Env, w: nat, s: nat, m: nat) {
    && w < s < m
    && env.poll(w).Ok? && env.poll(s) == env.poll(w) && env.poll(m) == env.poll(w)
    && (forall i :: w < i < s ==> env.poll(i) == Failed)
    && (forall i :: s < i < m ==> env.poll(i) == Failed || env.poll(i) == env.poll(w))
  }

  ghost predicate ConvergedAt(env: Env, m: nat) {
    exists w: nat, s: nat :: Window(env, w, s, m) && env.stamp(m) - env.stamp(s) >= SAMPLE_INTERVAL
  }

  lemma {:induction false} ClockMonotone(env: Env, i: nat, j: nat)
    requires Advances(env) && i <= j
    ensures env.guard(i) <= env.guard(j) && env.stamp(i) <= env.stamp(j)
    ensures i < j ==> env.stamp(i) <= env.guard(j)
    ensures env.start + j as real <= env.guard(j)
    decreases j
  {
    assert Tick(env, j);
    if j == 0 {
    } else {
      assert Tick(env, j - 1);
      ClockMonotone(env, if i < j then i else 0, j - 1);
    }
  }

  // ---- the loop ---------------------------------------------------------

  /** A poll after `j` and before `n` says something other than `j` did. */
  ghost predicate Broken(env: Env, j: nat, n: nat) {
    exists i :: j < i < n && env.poll(i) != Failed && env.poll(i) != env.poll(j)
  }

  /** No window with this poll as its last ok poll reaches past `n`. */
  ghost predicate NoOpenWindow(env: Env, n: nat, c: Option<int>) {
    forall j :: 0 <= j < n && env.poll(j).Ok? && (c.Some? ==> env.poll(j) == Ok(c.value)) ==> Broken(env, j, n)
  }

  /** What the loop's two variables say about the polls so far: `w` starts the current window and
      `s` is its second poll. */
  ghost predicate Tracks(env: Env, n: nat, prev: Option<int>, since: Option<real>, w: nat, s: nat) {
    match prev
    case None => since.None? && NoOpenWindow(env, n, None)
    case Some(c) =>
      && w < n && env.poll(w) == Ok(c) && NoOpenWindow(env, w, prev)
      && (forall i :: w < i < n ==> env.poll(i) == Failed || env.poll(i) == Ok(c))
      && match since
         case None => forall i :: w < i < n ==> env.poll(i) == Failed
         case Some(t) =>
           && w < s < n && env.poll(s) == Ok(c) && t == env.stamp(s)
           && forall i :: w < i < s ==> env.poll(i) == Failed
  }

  /** No poll inside a window contradicts it. */
  lemma WindowUnbroken(env: Env, w: nat, s: nat, m: nat, n: nat)
    requires Window(env, w, s, m) && n <= m + 1
    ensures !Broken(env, w, n)
  {
  }

  /** A window that ends at `n` starts no earlier than the tracked one and has the tracked count. */
  lemma WindowStart(env: Env, n: nat, prev: Option<int>, since: Option<real>, w: nat, s: nat, w': nat, s': nat)
    requires Tracks(env, n, prev, since, w, s) && Window(env, w', s', n)
    ensures prev.Some? && env.poll(n) == Ok(prev.value) && w <= w'
    ensures since.Some? && s <= s'
  {
    WindowUnbroken(env, w', s', n, n);
    assert prev.Some?;
    WindowUnbroken(env, w', s', n, w);
    assert w' < w ==> env.poll(w) == env.poll(w');
    assert env.poll(n) == Ok(prev.value);
    assert w <= w';
  }

  lemma TracksFailed(env: Env, n: nat, prev: Option<int>, since: Option<real>, w: nat, s: nat)
    requires Tracks(env, n, prev, since, w, s) && env.poll(n) == Failed
    ensures Tracks(env, n + 1, prev, since, w, s)
  {
    if prev.None? {
      forall j | 0 <= j < n + 1 && env.poll(j).Ok? ensures Broken(env, j, n + 1) {
        assert Broken(env, j, n);
      }
    }
  }

  lemma TracksNotOk(env: Env, n: nat)
    requires env.poll(n) == NotOk
    ensures Tracks(env, n + 1, None, None, 0, 0)
  {
    forall j | 0 <= j < n + 1 && env.poll(j).Ok? ensures Broken(env, j, n + 1) {
      assert env.poll(n) != env.poll(j);
    }
  }

  lemma TracksNewCount(env: Env, n: nat, prev: Option<int>, since: Option<real>, w: nat, s: nat, c: int)
    requires Tracks(env, n, prev, since, w, s) && env.poll(n) == Ok(c) && prev != Some(c)
    ensures Tracks(env, n + 1, Some(c), None, n, s)
  {
    forall j | 0 <= j < n && env.poll(j) == Ok(c) ensures Broken(env, j, n) {
      if prev.Some? {
        assert j < w;
        assert env.poll(w) != env.poll(j);
      }
    }
  }

  lemma TracksSameCount(env: Env, n: nat, prev: Option<int>, since: Option<real>, w: nat, s: nat, c: int)
    requires Tracks(env, n, prev, since, w, s) && env.poll(n) == Ok(c) && prev == Some(c)
    ensures since.None? ==> Tracks(env, n + 1, prev, Some(env.stamp(n)), w, n)
    ensures since.Some? ==> Tracks(env, n + 1, prev, since, w, s) && Window(env, w, s, n)
  {
  }

  /** The tracked window decides whether poll `n` converges. */
  lemma ConvergedIsTracked(env: Env, n: nat, prev: Option<int>, since: Option<real>, w: nat, s: nat)
    requires Advances(env) && Tracks(env, n, prev, since, w, s)
    ensures ConvergedAt(env, n) <==>
            && prev.Some? && env.poll(n) == Ok(prev.value)
            && since.Some? && env.stamp(n) - since.value >= SAMPLE_INTERVAL
  {
    if ConvergedAt(env, n) {
      var w', s' :| Window(env, w', s', n) && env.stamp(n) - env.stamp(s') >= SAMPLE_INTERVAL;
      WindowStart(env, n, prev, since, w, s, w', s');
      ClockMonotone(env, s, s');
    }
    if prev.Some? && env.poll(n) == Ok(prev.value) && since.Some? {
      TracksSameCount(env, n, prev, since, w, s, prev.value);
    }
  }

  /** True exactly when some poll before the deadline converges; it stops at the first such poll,
      or at the first loop test past the deadline. */
  method WaitForConvergence(env: Env, timeout: int) returns (converged: bool, polls: nat)
    requires Advances(env)
    ensures converged <==> exists m: nat :: env.guard(m) < env.start + timeout as real && ConvergedAt(env, m)
    ensures converged ==> polls > 0 && ConvergedAt(env, polls - 1)
    ensures forall i: nat :: i + (if converged then 1 else 0) < polls ==> !ConvergedAt(env, i)
    ensures forall i: nat :: i < polls ==> env.guard(i) < env.start + timeout as real
    ensures !converged ==> env.guard(polls) >= env.start + timeout as real
    ensures polls <= if timeout > 0 then timeout else 0
  {
    hide Tracks, ConvergedAt, Advances;
    var deadline := env.start + timeout as real;
    var prevCount: Option<int>, stableSince: Option<real> := None, None;
    ghost var w: nat, s: nat := 0, 0;
    polls := 0;
    StartsTracking(env);
    ClockMonotone(env, 0, 0);
    while env.guard(polls) < deadline
      invariant Tracks(env, polls, prevCount, stableSince, w, s)
      invariant forall i: nat :: i < polls ==> !ConvergedAt(env, i) && env.guard(i) < deadline
      invariant env.start + polls as real <= env.guard(polls)
      invariant polls <= if timeout > 0 then timeout else 0
      decreases timeout - polls
    {
      var n := polls;
      polls := polls + 1;
      ClockMonotone(env, n, polls);
      ConvergedIsTracked(env, n, prevCount, stableSince, w, s);
      if env.poll(n).Failed? {
        TracksFailed(env, n, prevCount, stableSince, w, s);
        continue;
      }
      if env.poll(n).NotOk? {
        TracksNotOk(env, n);
        prevCount, stableSince, w, s := None, None, 0, 0;
        continue;
      }
      var count := env.poll(n).count;
      if prevCount == Some(count) {
        TracksSameCount(env, n, prevCount, stableSince, w, s, count);
        if stableSince.None? {
          stableSince := Some(env.stamp(n));
          s := n;
        } else if env.stamp(n) - stableSince.value >= SAMPLE_INTERVAL {
          converged := true;
          return;
        }
      } else {
        TracksNewCount(env, n, prevCount, stableSince, w, s, count);
        stableSince := None;
        w := n;
      }
      prevCount := Some(count);
    }
    forall m: nat | env.guard(m) < deadline ensures !ConvergedAt(env, m) {
      if m >= polls {
        ClockMonotone(env, polls, m);
      }
    }
    converged := false;
  }

  lemma StartsTracking(env: Env)
    ensures Tracks(env, 0, None, None, 0, 0)
  {
  }

  // ---- windows without their shape --------------------------------------

  /** Polls `w` to `m` are ok with count `c`, but for those that failed. */
  ghost predicate InARow(env: Env, w: nat, m: nat, c: int) {
    forall i: nat :: w <= i <= m ==> env.poll(i) == Failed || env.poll(i) == Ok(c)
  }

  lemma {:induction false} LastOkBefore(env: Env, w: nat, s: nat, c: int) returns (v: nat)
    requires w < s && env.poll(w) == Ok(c) && InARow(env, w, s, c)
    ensures w <= v < s && env.poll(v) == Ok(c) && forall i :: v < i < s ==> env.poll(i) == Failed
    decreases s
  {
    if env.poll(s - 1) == Ok(c) {
      v := s - 1;
    } else {
      v := LastOkBefore(env, w, s - 1, c);
    }
  }

  /** A poll converges exactly when it and two polls before it are ok with one count, nothing but failed
      polls or that count came in between, and at least 15 s have passed since the second of them. */
  lemma ConvergedMeans(env: Env, m: nat)
    ensures ConvergedAt(env, m) <==>
            exists w: nat, s: nat, c: int ::
              && w < s < m && env.poll(w) == Ok(c) && env.poll(s) == Ok(c) && env.poll(m) == Ok(c)
              && InARow(env, w, m, c) && env.stamp(m) >= env.stamp(s) + 15.0
  {
    if ConvergedAt(env, m) {
      var w: nat, s: nat :| Window(env, w, s, m) && env.stamp(m) - env.stamp(s) >= SAMPLE_INTERVAL;
      assert InARow(env, w, m, env.poll(w).count);
    }
    if w: nat, s: nat, c: int :|
         && w < s < m && env.poll(w) == Ok(c) && env.poll(s) == Ok(c) && env.poll(m) == Ok(c)
         && InARow(env, w, m, c) && env.stamp(m) >= env.stamp(s) + 15.0 {
      var v := LastOkBefore(env, w, s, c);
      assert Window(env, v, s, m);
    }
  }

  // ---- what the 15 s test adds ------------------------------------------

  /** When sleeps last as long as asked, the 15 s test never fails on a third equal poll: a poll
      converges exactly when it is the third or later in a row that is ok with one count. */
  lemma ThirdEqualPollConverges(env: Env, m: nat)
    requires Advances(env) && SleepsInFull(env)
    ensures ConvergedAt(env, m) <==> exists w: nat, s: nat :: Window(env, w, s, m)
  {
    forall w: nat, s: nat | Window(env, w, s, m) ensures env.stamp(m) - env.stamp(s) >= SAMPLE_INTERVAL {
      assert FullSleep(env, s);
      ClockMonotone(env, s + 1, m);
      assert Tick(env, m);
    }
  }
}

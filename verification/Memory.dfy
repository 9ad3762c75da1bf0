/** The memory guards around a deployment (harness/memory.py): the headroom check before it and the
    poll for recovered memory after it, against any sequence of readings. */
module Memory {

  const BASELINE_SLACK_MB := 500
  const RECOVERY_TIMEOUT_S := 30

  // ---- headroom ---------------------------------------------------------

  datatype Headroom = BadArgument | Short(needed: int) | Enough

  function CheckHeadroom(caps: int, multiplier: real, have: int): Headroom {
    if caps < 0 || multiplier < 1.0 then BadArgument
    else
      var needed := (caps as real * multiplier).Floor;
      if have < needed then Short(needed) else Enough
  }

  /** A passed check leaves room for every container at its cap, and for the product itself up to
      the fraction of a megabyte that the truncation drops. */
  lemma HeadroomCoversCaps(caps: int, multiplier: real, have: int)
    requires CheckHeadroom(caps, multiplier, have).Enough?
    ensures 0 <= caps <= have
    ensures have as real > caps as real * multiplier - 1.0
  {
    assert caps as real * multiplier >= caps as real by {
      AtLeastOneTimes(caps as real, multiplier);
    }
  }

  /** What the check says, without its truncation: it refuses a negative cap and a multiplier below 1,
      and otherwise passes exactly when the host is short of the product by less than one megabyte. */
  lemma HeadroomMeans(caps: int, multiplier: real, have: int)
    ensures
      var check, product := CheckHeadroom(caps, multiplier, have), caps as real * multiplier;
      && (check.BadArgument? <==> caps < 0 || multiplier < 1.0)
      && (check.Enough? <==> caps >= 0 && multiplier >= 1.0 && product - have as real < 1.0)
      && (check.Short? ==> have < check.needed && check.needed as real <= product < check.needed as real + 1.0)
  {
  }

  lemma AtLeastOneTimes(x: real, m: real)
    requires x >= 0.0 && m >= 1.0
    ensures x * m >= x
  {
    assert x * (m - 1.0) >= 0.0;
  }

  // ---- recovery ---------------------------------------------------------

  /** `reading(i)` is the i-th reading and `clock(i)` the clock at the deadline test after it. */
  datatype Host = Host(start: real, reading: nat -> int, clock: nat -> real)

  datatype Recovery = Refused | Recovered(mb: int) | TimedOut(mb: int)

  ghost predicate Tick(host: Host, i: nat) {
    host.clock(i) + 1.0 <= host.clock(i + 1)
  }

  /** The clock never runs backwards and each sleep takes its second. */
  ghost predicate Advances(host: Host) {
    host.start <= host.clock(0) && forall i: nat :: Tick(host, i)
  }

  predicate Waits(host: Host, threshold: int, deadline: real, i: nat) {
    host.reading(i) < threshold && host.clock(i) < deadline
  }

  /** Reading `i` is the first that the poll does not go on from. */
  ghost predicate EndsAt(host: Host, threshold: int, deadline: real, i: nat) {
    !Waits(host, threshold, deadline, i) && forall j: nat | j < i :: Waits(host, threshold, deadline, j)
  }

  /** What the poll must say: the first reading at or above the threshold, if no reading before it
      was followed by a clock at the deadline; otherwise the first low reading that was. */
  ghost predicate Verdict(host: Host, baseline: int, slack: int, timeout: int, r: Recovery) {
    if baseline < 0 || slack < 0 || timeout <= 0 then r == Refused
    else
      var threshold, deadline := baseline - slack, host.start + timeout as real;
      exists i: nat :: EndsAt(host, threshold, deadline, i)
        && r == if host.reading(i) >= threshold then Recovered(host.reading(i)) else TimedOut(host.reading(i))
  }

  lemma EndIsUnique(host: Host, threshold: int, deadline: real, i: nat, j: nat)
    requires EndsAt(host, threshold, deadline, i) && EndsAt(host, threshold, deadline, j)
    ensures i == j
  {
    assert i < j ==> Waits(host, threshold, deadline, i);
    assert j < i ==> Waits(host, threshold, deadline, j);
  }

  /** The readings and the clock leave the poll one thing to say. */
  lemma VerdictIsUnique(host: Host, baseline: int, slack: int, timeout: int, r: Recovery, r': Recovery)
    requires Verdict(host, baseline, slack, timeout, r) && Verdict(host, baseline, slack, timeout, r')
    ensures r == r'
  {
    if baseline >= 0 && slack >= 0 && timeout > 0 {
      var threshold, deadline := baseline - slack, host.start + timeout as real;
      forall i: nat, j: nat | EndsAt(host, threshold, deadline, i) && EndsAt(host, threshold, deadline, j)
        ensures i == j
      {
        EndIsUnique(host, threshold, deadline, i, j);
      }
    }
  }

  /** It ends after at most one reading more than the seconds it may take. */
  method AssertRecovered(host: Host, baseline: int, slack: int, timeout: int) returns (r: Recovery, polls: nat)
    requires Advances(host)
    ensures Verdict(host, baseline, slack, timeout, r)
    ensures r != Refused ==> 0 < polls <= timeout + 1
    ensures r.Recovered? ==> r.mb >= baseline - slack
  {
    polls := 0;
    if baseline < 0 || slack < 0 || timeout <= 0 {
      return Refused, polls;
    }
    var threshold := baseline - slack;
    var deadline := host.start + timeout as real;
    while true
      invariant forall j: nat | j < polls :: Waits(host, threshold, deadline, j)
      invariant host.start + polls as real <= host.clock(polls)
      invariant polls <= timeout
      decreases timeout - polls
    {
      var n := polls;
      polls := polls + 1;
      assert Tick(host, n);
      var last := host.reading(n);
      if last >= threshold {
        assert EndsAt(host, threshold, deadline, n);
        return Recovered(last), polls;
      }
      if host.clock(n) >= deadline {
        assert EndsAt(host, threshold, deadline, n);
        return TimedOut(last), polls;
      }
    }
  }

  ghost predicate RecoversAt(host: Host, baseline: int, slack: int, timeout: int, i: nat) {
    && baseline - host.reading(i) <= slack
    && forall j: nat | j < i ::
         baseline - host.reading(j) > slack && host.clock(j) - host.start < timeout as real
  }

  /** What the poll says, read off the readings: with a slack of `slack` it has recovered at reading
      `i` exactly when that is the first to come within the slack of the baseline, and the clock after
      every reading before it was short of the deadline. */
  lemma VerdictMeans(host: Host, baseline: int, slack: int, timeout: int, r: Recovery)
    requires Verdict(host, baseline, slack, timeout, r)
    ensures r == Refused <==> baseline < 0 || slack < 0 || timeout <= 0
    ensures r.Recovered? <==> r != Refused && exists i: nat :: RecoversAt(host, baseline, slack, timeout, i)
    ensures forall i: nat | r != Refused && RecoversAt(host, baseline, slack, timeout, i) ::
              r == Recovered(host.reading(i))
  {
    hide EndsAt, RecoversAt;
    if r != Refused {
      var threshold, deadline := baseline - slack, host.start + timeout as real;
      var e: nat :| EndsAt(host, threshold, deadline, e)
                    && r == if host.reading(e) >= threshold then Recovered(host.reading(e))
                            else TimedOut(host.reading(e));
      RecoveryIsAnEnd(host, baseline, slack, timeout, e);
      forall i: nat | RecoversAt(host, baseline, slack, timeout, i) ensures i == e {
        RecoveryIsAnEnd(host, baseline, slack, timeout, i);
        EndIsUnique(host, threshold, deadline, i, e);
      }
    }
  }

  lemma RecoveryIsAnEnd(host: Host, baseline: int, slack: int, timeout: int, i: nat)
    ensures
      var threshold, deadline := baseline - slack, host.start + timeout as real;
      RecoversAt(host, baseline, slack, timeout, i) <==>
      EndsAt(host, threshold, deadline, i) && host.reading(i) >= threshold
  {
    var threshold, deadline := baseline - slack, host.start + timeout as real;
    if EndsAt(host, threshold, deadline, i) && host.reading(i) >= threshold {
      forall j: nat | j < i
        ensures baseline - host.reading(j) > slack && host.clock(j) - host.start < timeout as real
      {
        assert Waits(host, threshold, deadline, j);
      }
    }
  }
}

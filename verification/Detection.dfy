/** Detection time: in a punctual run every outcome and every action keeps a bound, so outages are acted on in time. */
module Detection {
  import opened Base
  import opened Timers
  import opened Monitor
  import opened Runs
  import opened Ledger
  import opened Schedule
  import opened Policy
  import Guarantees
  import Icmp
  import Stats

  // ---- The invariant ----

  /** By when outcome n is known: n intervals, one timeout and twice the lateness after the first deadline. */
  function OutcomeBound(p: Setup, start: U64, late: nat, n: nat): nat {
    FirstDeadline(p, start) + n * p.config.intervalMs + p.config.timeoutMs + 2 * late
  }

  /** Every tick so far has its outcome or is the one outstanding, and the schedule is in phase. */
  predicate InPhase(p: Setup, start: U64, late: nat, s: State) {
    && s.ping == FirstDeadline(p, start) + |s.h.ticks| * p.config.intervalMs
    && |s.h.ticks| == |s.h.outcomes| + (if Armed(s.reply) then 1 else 0)
    && (Armed(s.reply) ==> s.reply <= s.ping - p.config.intervalMs + late + p.config.timeoutMs)
  }

  /** No tick is skipped, and the k-th outcome is that of the k-th tick. */
  predicate OneToOne(ticks: seq<Tick>, outcomes: seq<Stats.Sample>, resolved: seq<nat>) {
    && (forall k :: 0 <= k < |ticks| ==> ticks[k].result != Skipped)
    && |resolved| == |outcomes| && (forall k :: 0 <= k < |resolved| ==> resolved[k] == k)
  }

  predicate ActedInTime(p: Setup, start: U64, late: nat, a: Action) {
    a.at > 0 && a.time <= OutcomeBound(p, start, late, a.at - 1)
  }

  ghost predicate Tracked(p: Setup, start: U64, late: nat, s: State) {
    && LiveDeadlines(p, s)
    && OneToOne(s.h.ticks, s.h.outcomes, s.h.resolved)
    && (forall k :: 0 <= k < |s.h.actions| ==> ActedInTime(p, start, late, s.h.actions[k]))
    && (!s.stopping ==> InPhase(p, start, late, s))
  }

  // ---- Preservation ----

  lemma Distribute(k: nat, interval: nat)
    ensures (k + 1) * interval == k * interval + interval
  {
  }

  /** The outcome of the last tick, recorded while no probe is outstanding. */
  lemma OutcomeTracked(p: Setup, start: U64, late: nat, s: State, x: Stats.Sample, g: Ground)
    requires LiveDeadlines(p, s) && OneToOne(s.h.ticks, s.h.outcomes, s.h.resolved)
    requires forall k :: 0 <= k < |s.h.actions| ==> ActedInTime(p, start, late, s.h.actions[k])
    requires s.ping == FirstDeadline(p, start) + |s.h.ticks| * p.config.intervalMs
    requires !Armed(s.reply) && |s.h.ticks| == |s.h.outcomes| + 1
    ensures Tracked(p, start, late, Record(Because(s, g), x))
  {
    assert LastSend(s.h.ticks) == |s.h.ticks| - 1;
  }

  /** The action that may follow a loss runs within the bound of that loss. */
  lemma CheckTracked(p: Setup, start: U64, late: nat, s: State, accepted: bool)
    requires Tracked(p, start, late, s) && !s.stopping && s.h.outcomes != []
    requires s.now <= OutcomeBound(p, start, late, |s.h.outcomes| - 1)
    ensures Tracked(p, start, late, CheckThreshold(p, s, accepted))
  {
    var c := CheckThreshold(p, s, accepted);
    var a := Action(|s.h.outcomes|, s.now, ActionResultOf(p, accepted));
    assert ActedInTime(p, start, late, a);
    assert c.h.actions == s.h.actions || c.h.actions == s.h.actions + [a];
  }

  /** A loss recorded in time is followed by an action in time, if any. */
  lemma LossTracked(p: Setup, start: U64, late: nat, s: State, g: Ground, accepted: bool)
    requires LiveDeadlines(p, s) && OneToOne(s.h.ticks, s.h.outcomes, s.h.resolved)
    requires forall k :: 0 <= k < |s.h.actions| ==> ActedInTime(p, start, late, s.h.actions[k])
    requires s.ping == FirstDeadline(p, start) + |s.h.ticks| * p.config.intervalMs
    requires !s.stopping && !Armed(s.reply) && |s.h.ticks| == |s.h.outcomes| + 1
    requires s.now <= s.ping - p.config.intervalMs + p.config.timeoutMs + 2 * late
    ensures Tracked(p, start, late, CheckThreshold(p, Record(Because(s, g), Stats.Lost), accepted))
  {
    OutcomeTracked(p, start, late, s, Stats.Lost, g);
    Distribute(|s.h.outcomes|, p.config.intervalMs);
    CheckTracked(p, start, late, Record(Because(s, g), Stats.Lost), accepted);
  }

  lemma TrackedByDrain(p: Setup, start: U64, late: nat, s: State, mail: Mail)
    requires Tracked(p, start, late, s) && !s.stopping
    ensures Tracked(p, start, late, Drained(p, s, mail))
  {
    match VerdictOn(p, s, mail)
    case NoMatch =>
    case Fatal =>
    case Found(from, seen) =>
      OutcomeTracked(p, start, late, ResetProbe(s), Stats.Answered(mail.latencyUs), ByReply(from, seen));
  }

  lemma TrackedByReply(p: Setup, start: U64, late: nat, s: State, i: Input)
    requires Tracked(p, start, late, s) && Fires(s, s.reply, late)
    ensures Tracked(p, start, late, OnReply(p, s, i))
  {
    var fired := s.(h := s.h.(timeouts := s.h.timeouts + [s.now]));
    assert Tracked(p, start, late, fired);
    TrackedByDrain(p, start, late, fired, i.lastChance);
    if VerdictOn(p, fired, i.lastChance).NoMatch? {
      LossTracked(p, start, late, ResetProbe(fired), ByTimeout(s.now), i.replyAccepted);
    }
  }

  /** A punctual tick finds no probe outstanding and keeps the phase. */
  lemma TickKeepsPhase(p: Setup, start: U64, late: nat, s: State, result: TickResult)
    requires ValidSetup(p) && late + p.config.timeoutMs <= p.config.intervalMs
    requires Tracked(p, start, late, s) && Fires(s, s.ping, late)
    requires Armed(s.reply) ==> s.now < s.reply
    ensures !Armed(s.reply)
    ensures var u := Ticked(p, s, result);
            && u.ping == s.ping + p.config.intervalMs
            && u.ping == FirstDeadline(p, start) + |u.h.ticks| * p.config.intervalMs
            && |u.h.ticks| == |u.h.outcomes| + 1
            && (result != Skipped ==> OneToOne(u.h.ticks, u.h.outcomes, u.h.resolved))
            && LiveDeadlines(p, u)
  {
    Distribute(|s.h.ticks|, p.config.intervalMs);
  }

  lemma TrackedByPing(p: Setup, start: U64, late: nat, s: State, i: Input)
    requires ValidSetup(p) && late + p.config.timeoutMs <= p.config.intervalMs
    requires Tracked(p, start, late, s) && Fires(s, s.ping, late)
    requires Armed(s.reply) ==> s.now < s.reply
    ensures Tracked(p, start, late, OnPing(p, s, i))
  {
    var result := TickResultOf(s, Icmp.StatusOf(i.kernel, PACKET_SIZE));
    var r, u := OnPing(p, s, i), Ticked(p, s, result);
    TickKeepsPhase(p, start, late, s, result);
    match result
    case Refused => assert r == Halt(u, EXIT_FAILURE, SendFailed);
    case Unreachable => LossTracked(p, start, late, u, BySend, i.sendAccepted);
    case Sent => assert r == u.(probe := u.sequence, reply := s.now + p.config.timeoutMs);
  }

  ghost function TrackedFor(p: Setup, start: U64, late: nat): State -> bool {
    s => Tracked(p, start, late, s)
  }

  lemma TrackedByOthers(p: Setup, start: U64, late: nat, s: State, t: U64)
    requires ValidSetup(p) && Tracked(p, start, late, s)
    ensures s.now <= t < CLOCK_LIMIT ==> Tracked(p, start, late, At(s, t))
    ensures Fires(s, s.watchdog, late) ==> Tracked(p, start, late, OnWatchdog(p, s))
  {
  }

  lemma TrackedByHalt(p: Setup, start: U64, late: nat, s: State, c: Cause)
    requires Tracked(p, start, late, s)
    ensures Tracked(p, start, late, Halt(s, ExitFor(c), c))
  {
  }

  lemma TrackedPreserved(p: Setup, start: U64, late: nat)
    requires ValidSetup(p) && late + p.config.timeoutMs <= p.config.intervalMs
    ensures Preserved(p, late, TrackedFor(p, start, late))
  {
    forall s: State, t: U64 | Tracked(p, start, late, s)
      ensures s.now <= t < CLOCK_LIMIT ==> Tracked(p, start, late, At(s, t))
      ensures Fires(s, s.watchdog, late) ==> Tracked(p, start, late, OnWatchdog(p, s))
    {
      TrackedByOthers(p, start, late, s, t);
    }
    forall s: State, c: Cause | Tracked(p, start, late, s)
      ensures Tracked(p, start, late, Halt(s, ExitFor(c), c))
    {
      TrackedByHalt(p, start, late, s, c);
    }
    forall s: State, i: Input | Tracked(p, start, late, s) && Fires(s, s.reply, late)
      ensures Tracked(p, start, late, OnReply(p, s, i))
    {
      TrackedByReply(p, start, late, s, i);
    }
    forall s: State, i: Input
      | Tracked(p, start, late, s) && Fires(s, s.ping, late) && (Armed(s.reply) ==> s.now < s.reply)
      ensures Tracked(p, start, late, OnPing(p, s, i))
    {
      TrackedByPing(p, start, late, s, i);
    }
    forall s: State, mail: Mail | Tracked(p, start, late, s) && !s.stopping
      ensures Tracked(p, start, late, Drained(p, s, mail))
    {
      TrackedByDrain(p, start, late, s, mail);
    }
  }

  lemma ReachedTracked(p: Setup, start: U64, late: nat, s: State)
    requires ReachedWithin(p, start, late, s) && late + p.config.timeoutMs <= p.config.intervalMs
    ensures Tracked(p, start, late, s)
  {
    ReachedValid(p, start, late, s);
    TrackedPreserved(p, start, late);
    ReachedPreserves(p, start, late, s, TrackedFor(p, start, late));
  }

  // ---- Every outcome and every action in time ----

  /** A running loop that knows n outcomes takes no reading past the bound of the next one. */
  lemma NextReading(p: Setup, start: U64, late: nat, s: State, t: U64)
    requires InPhase(p, start, late, s) && Armed(s.ping) && !s.stopping && InTimeAll(s, Some(t), late)
    ensures t <= OutcomeBound(p, start, late, |s.h.outcomes|)
  {
    if Armed(s.reply) {
      Distribute(|s.h.outcomes|, p.config.intervalMs);
    }
  }

  /**
   * In a run punctual up to a lateness that fits between timeout and interval, whatever was
   * answered or lost before: no tick is skipped and the k-th outcome is the k-th tick's; every
   * action runs by the bound of the loss it follows, also when it retries a failed one; and a loop
   * still running reads no clock past the bound of the next outcome.
   */
  lemma AlwaysInTime(p: Setup, start: U64, late: nat, s: State, t: U64)
    requires ReachedWithin(p, start, late, s) && late + p.config.timeoutMs <= p.config.intervalMs
    ensures OneToOne(s.h.ticks, s.h.outcomes, s.h.resolved)
    ensures forall k :: 0 <= k < |s.h.actions| ==> ActedInTime(p, start, late, s.h.actions[k])
    ensures !s.stopping && InTimeAll(s, Some(t), late) ==> t <= OutcomeBound(p, start, late, |s.h.outcomes|)
  {
    ReachedValid(p, start, late, s);
    ReachedTracked(p, start, late, s);
    if !s.stopping && InTimeAll(s, Some(t), late) {
      NextReading(p, start, late, s, t);
    }
  }

  // ---- Outages ----

  /** Nothing was answered from tick n on, and nothing but the action stopped the loop. */
  predicate Outage(h: History, n: nat) {
    && n <= |h.outcomes| && (forall k :: n <= k < |h.outcomes| ==> h.outcomes[k].Lost?)
    && (forall k :: 0 <= k < |h.stops| ==> h.stops[k].cause == ActionDone)
  }

  /** The deadline of tick n, threshold - 1 intervals, one timeout, and twice the lateness. */
  function Bound(p: Setup, start: U64, late: nat, n: nat): nat
    requires p.config.threshold > 0
  {
    OutcomeBound(p, start, late, n + p.config.threshold - 1)
  }

  /** Some action after `at` outcomes ran by t. */
  predicate ActedBy(actions: seq<Action>, at: nat, t: nat) {
    exists k :: 0 <= k < |actions| && actions[k].at == at && actions[k].time <= t
  }

  /**
   * An outage that begins with tick n has been acted on by the bound, or has been too short so far:
   * then the loop was stopped by an earlier action in time, or no reading it can take next is past
   * the bound.
   */
  predicate HandledInTime(p: Setup, start: U64, late: nat, s: State, n: nat, t: U64)
    requires p.config.threshold > 0
  {
    var bound := Bound(p, start, late, n);
    if |s.h.outcomes| >= n + p.config.threshold then ActedBy(s.h.actions, n + p.config.threshold, bound)
    else if s.stopping then ActionSucceeded(s.h.actions) && ActedBy(s.h.actions, |s.h.outcomes|, bound)
    else InTimeAll(s, Some(t), late) ==> t <= bound
  }

  /** The action of the outage keeps the advertised threshold times interval, if the lateness leaves room for it. */
  predicate AsAdvertised(p: Setup, start: U64, late: nat, actions: seq<Action>, n: nat) {
    p.config.timeoutMs + 2 * late <= p.config.intervalMs ==>
      forall k :: 0 <= k < |actions| && actions[k].at == n + p.config.threshold ==>
        actions[k].time - (FirstDeadline(p, start) + n * p.config.intervalMs)
        <= MulSat(p.config.threshold, p.config.intervalMs)
  }

  lemma BoundGrows(p: Setup, start: U64, late: nat, m: nat, n: nat)
    requires m <= n
    ensures OutcomeBound(p, start, late, m) <= OutcomeBound(p, start, late, n)
  {
    MulMonotone(m, n, p.config.intervalMs);
  }

  /** The losses that end an outage history are at least as many as the outage has outcomes. */
  lemma {:induction false} OutageRun(o: seq<Stats.Sample>, n: nat)
    requires n <= |o| && forall k :: n <= k < |o| ==> o[k].Lost?
    ensures LossRun(o) >= |o| - n
  {
    if n < |o| {
      OutageRun(o[..|o| - 1], n);
    }
  }

  /** An outage with enough outcomes had its action, whether or not earlier ones failed. */
  lemma LongOutage(p: Setup, start: U64, late: nat, s: State, n: nat)
    requires Reached(p, start, s) && p.config.threshold > 0 && Outage(s.h, n)
    requires |s.h.outcomes| >= n + p.config.threshold
    requires forall k :: 0 <= k < |s.h.actions| ==> ActedInTime(p, start, late, s.h.actions[k])
    ensures ActedBy(s.h.actions, n + p.config.threshold, Bound(p, start, late, n))
  {
    var at := n + p.config.threshold;
    OutageRun(s.h.outcomes[..at], n);
    Guarantees.ActionExactlyWhenDue(p, start, s, at);
    var k :| 0 <= k < |s.h.actions| && s.h.actions[k].at == at;
    assert ActedInTime(p, start, late, s.h.actions[k]);
  }

  lemma StoppedByAction(p: Setup, start: U64, s: State, n: nat)
    requires Reached(p, start, s) && Outage(s.h, n) && s.stopping
    ensures ActionSucceeded(s.h.actions) && s.h.actions[|s.h.actions| - 1].at == |s.h.outcomes|
  {
    ReachedJudged(p, start, s);
  }

  /** A loop that nothing but the action stopped was stopped by its last action, after its last outcome. */
  lemma StoppedOutage(p: Setup, start: U64, late: nat, s: State, n: nat)
    requires Reached(p, start, s) && p.config.threshold > 0 && Outage(s.h, n) && s.stopping
    requires |s.h.outcomes| < n + p.config.threshold
    requires forall k :: 0 <= k < |s.h.actions| ==> ActedInTime(p, start, late, s.h.actions[k])
    ensures ActionSucceeded(s.h.actions) && ActedBy(s.h.actions, |s.h.outcomes|, Bound(p, start, late, n))
  {
    StoppedByAction(p, start, s, n);
    var a := s.h.actions[|s.h.actions| - 1];
    assert ActedInTime(p, start, late, a);
    BoundGrows(p, start, late, a.at - 1, n + p.config.threshold - 1);
  }

  /**
   * Outages are acted on in time, wherever they begin: after a working period, after earlier
   * losses, or after failed poweroffs. The bound counts from the deadline of tick n, whose probe is
   * the first one lost.
   */
  lemma OutageActedOn(p: Setup, start: U64, late: nat, s: State, n: nat, t: U64)
    requires ReachedWithin(p, start, late, s) && late + p.config.timeoutMs <= p.config.intervalMs
    requires Outage(s.h, n)
    ensures p.config.threshold > 0 && HandledInTime(p, start, late, s, n, t)
    ensures AsAdvertised(p, start, late, s.h.actions, n)
    ensures n < |s.h.outcomes| ==> n < |s.h.resolved| && s.h.resolved[n] == n
    ensures n < |s.h.ticks| ==>
              && s.h.ticks[n].deadline == FirstDeadline(p, start) + n * p.config.intervalMs
              && Bound(p, start, late, n) == s.h.ticks[n].deadline + (p.config.threshold - 1) * p.config.intervalMs
                                             + p.config.timeoutMs + 2 * late
  {
    ReachedValid(p, start, late, s);
    ReachedOnTime(p, start, late, s);
    AlwaysInTime(p, start, late, s, t);
    if |s.h.outcomes| >= n + p.config.threshold {
      LongOutage(p, start, late, s, n);
    } else if s.stopping {
      StoppedOutage(p, start, late, s, n);
    } else {
      BoundGrows(p, start, late, |s.h.outcomes|, n + p.config.threshold - 1);
    }
    OutageAdvertised(p, start, late, s.h.actions, n);
    if n < |s.h.ticks| {
      Guarantees.SteadyPhase(p, start, s, late, n);
      BoundFrom(p, start, late, n);
    }
  }

  lemma BoundFrom(p: Setup, start: U64, late: nat, n: nat)
    requires p.config.threshold > 0
    ensures Bound(p, start, late, n) == FirstDeadline(p, start) + n * p.config.intervalMs
                                        + (p.config.threshold - 1) * p.config.intervalMs + p.config.timeoutMs + 2 * late
  {
    var k, interval := p.config.threshold - 1, p.config.intervalMs;
    assert (n + k) * interval == n * interval + k * interval;
  }

  /** The bound is within the advertised time while timeout and twice the lateness fit the interval. */
  lemma AdvertisedTime(p: Setup, start: U64, late: nat, n: nat, t: U64)
    requires ValidSetup(p) && t <= Bound(p, start, late, n) && p.config.timeoutMs + 2 * late <= p.config.intervalMs
    ensures t - (FirstDeadline(p, start) + n * p.config.intervalMs) <= MulSat(p.config.threshold, p.config.intervalMs)
  {
    BoundFrom(p, start, late, n);
    Distribute(p.config.threshold - 1, p.config.intervalMs);
  }

  lemma OutageAdvertised(p: Setup, start: U64, late: nat, actions: seq<Action>, n: nat)
    requires ValidSetup(p) && forall k :: 0 <= k < |actions| ==> ActedInTime(p, start, late, actions[k])
    ensures AsAdvertised(p, start, late, actions, n)
  {
    if p.config.timeoutMs + 2 * late <= p.config.intervalMs {
      forall k | 0 <= k < |actions| && actions[k].at == n + p.config.threshold
        ensures actions[k].time - (FirstDeadline(p, start) + n * p.config.intervalMs)
                <= MulSat(p.config.threshold, p.config.intervalMs)
      {
        assert ActedInTime(p, start, late, actions[k]);
        AdvertisedTime(p, start, late, n, actions[k].time);
      }
    }
  }

  /**
   * A target that was never up: the first action runs by the bound, within the advertised threshold
   * times interval while timeout plus twice the lateness fits the interval; and while it has not
   * run, the loop is running and no reading t it can take next is past the bound.
   */
  lemma ShutdownInTime(p: Setup, start: U64, late: nat, s: State, t: U64)
    requires ReachedWithin(p, start, late, s) && late + p.config.timeoutMs <= p.config.intervalMs
    requires Outage(s.h, 0)
    ensures p.config.threshold > 0
    ensures if s.h.actions == []
            then !s.stopping && (InTimeAll(s, Some(t), late) ==> t <= Bound(p, start, late, 0))
            else
              && s.h.actions[0].time <= Bound(p, start, late, 0)
              && (p.config.timeoutMs + 2 * late <= p.config.intervalMs ==>
                    s.h.actions[0].time - FirstDeadline(p, start)
                    <= MulSat(p.config.threshold, p.config.intervalMs))
  {
    ReachedValid(p, start, late, s);
    ReachedOnTime(p, start, late, s);
    AlwaysInTime(p, start, late, s, t);
    OutageActedOn(p, start, late, s, 0, t);
    if s.h.actions != [] {
      FirstActionAt(p, start, s);
      assert ActedInTime(p, start, late, s.h.actions[0]);
      if p.config.timeoutMs + 2 * late <= p.config.intervalMs {
        AdvertisedTime(p, start, late, 0, s.h.actions[0].time);
      }
    }
  }

  /** With every outcome lost, the first action comes after exactly `threshold` of them. */
  lemma FirstActionAt(p: Setup, start: U64, s: State)
    requires Reached(p, start, s) && Outage(s.h, 0) && s.h.actions != []
    ensures s.h.actions[0].at == p.config.threshold
  {
    var a, n := s.h.actions[0], p.config.threshold;
    ReachedValid(p, start, 0, s);
    Guarantees.ActionExactlyWhenDue(p, start, s, a.at);
    assert n <= a.at;
    OutageRun(s.h.outcomes[..n], 0);
    Guarantees.ActionExactlyWhenDue(p, start, s, n);
  }
}

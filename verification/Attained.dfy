/** Runs that act, and that attain the earliest and the latest time an action can run. */
module Attained {
  import opened Base
  import opened Timers
  import opened Monitor
  import opened Runs
  import opened Schedule
  import opened Iterations
  import opened Guarantees
  import opened Detection
  import Icmp
  import Stats

  /** An iteration in which the clock reads t, the network is unreachable and nothing else happens. */
  function Unanswered(t: U64): Input {
    Input(Some(t), Mail([], 0), false, Icmp.Refused(Icmp.ENETUNREACH), false, PollQuiet)
  }

  /** k losses so far, too few for an action, and the next tick is on schedule. */
  predicate Losing(p: Setup, start: U64, k: nat, s: State) {
    && !s.stopping && s.h.stops == [] && s.h.actions == []
    && s.ping == FirstDeadline(p, start) + k * p.config.intervalMs && s.now <= s.ping
    && !Armed(s.reply) && (p.beatMs == 0 ==> !Armed(s.watchdog))
    && s.fails == k == |s.h.outcomes| && (forall j :: 0 <= j < k ==> s.h.outcomes[j].Lost?)
  }

  /** A tick at its deadline on an unreachable network is one more loss. */
  lemma LossAtTick(p: Setup, s: State)
    requires ValidSetup(p) && !s.stopping && !Armed(s.reply) && s.ping < CLOCK_LIMIT
    ensures var t, r := s.ping, Iterate(p, s, Unanswered(s.ping));
            && r.now == t && r.ping == t + p.config.intervalMs && r.reply == s.reply
            && r.fails == s.fails + 1 && r.h.outcomes == s.h.outcomes + [Stats.Lost]
            && (!Armed(s.watchdog) ==> r.watchdog == s.watchdog)
            && (if r.fails < p.config.threshold
                then r.h.actions == s.h.actions && r.h.stops == s.h.stops && !r.stopping
                else r.h.actions == s.h.actions + [Action(|r.h.outcomes|, t, ActionResultOf(p, false))])
  {
    var a, i := At(s, s.ping), Unanswered(s.ping);
    Slots(p, a, i);
    var s1 := FireSlot(p, a, i, 0);
    assert FireSlot(p, s1, i, 1) == s1;
    var u := Record(Because(Ticked(p, s1, Unreachable), BySend), Stats.Lost);
    assert FireSlot(p, s1, i, 2) == OnPing(p, s1, i) == CheckThreshold(p, u, false);
  }

  lemma OneMoreLoss(p: Setup, start: U64, k: nat, s: State)
    requires ValidSetup(p) && Losing(p, start, k, s) && k + 1 < p.config.threshold && s.ping < CLOCK_LIMIT
    ensures Losing(p, start, k + 1, Iterate(p, s, Unanswered(s.ping)))
  {
    LossAtTick(p, s);
    Distribute(k, p.config.intervalMs);
  }

  /** A tick at its deadline is punctual. */
  lemma OnTime(p: Setup, start: U64, s: State)
    requires Reached(p, start, s) && s.now <= s.ping < CLOCK_LIMIT && !Armed(s.reply)
    ensures Reached(p, start, Iterate(p, s, Unanswered(s.ping)))
    ensures ReachedWithin(p, start, 0, s) && !Armed(s.watchdog) ==>
              ReachedWithin(p, start, 0, Iterate(p, s, Unanswered(s.ping)))
  {
    ReachedNext(p, start, s, Unanswered(s.ping));
    if ReachedWithin(p, start, 0, s) && !Armed(s.watchdog) {
      ReachedWithinNext(p, start, 0, s, Unanswered(s.ping));
    }
  }

  lemma StartLosing(p: Setup, start: U64)
    requires ValidSetup(p) && start < CLOCK_LIMIT
    ensures Losing(p, start, 0, Start(p, start)) && Reached(p, start, Start(p, start))
    ensures ReachedWithin(p, start, 0, Start(p, start))
  {
    var inputs: seq<Input> := [];
    assert Execution(p, start, inputs, [Start(p, start)]) && Punctual(inputs, [Start(p, start)], 0);
  }

  /** s is reached after k losses, punctually unless there is a watchdog that the ticks do not wait for. */
  ghost predicate Down(p: Setup, start: U64, k: nat, s: State) {
    && Losing(p, start, k, s) && Reached(p, start, s)
    && (p.beatMs == 0 ==> ReachedWithin(p, start, 0, s))
  }

  lemma DownLonger(p: Setup, start: U64, k: nat, s: State)
    requires ValidSetup(p) && 0 < k < p.config.threshold && Down(p, start, k - 1, s) && s.ping < CLOCK_LIMIT
    ensures exists r :: Down(p, start, k, r)
  {
    OneMoreLoss(p, start, k - 1, s);
    OnTime(p, start, s);
    assert Down(p, start, k, Iterate(p, s, Unanswered(s.ping)));
  }

  /** On a network that is down from the start, any number of losses below the threshold is reached. */
  lemma {:induction false} DownReached(p: Setup, start: U64, k: nat)
    requires ValidSetup(p) && start < CLOCK_LIMIT && k < p.config.threshold
    requires FirstDeadline(p, start) + k * p.config.intervalMs < CLOCK_LIMIT
    ensures exists s :: Down(p, start, k, s)
  {
    if k == 0 {
      StartLosing(p, start);
      assert Down(p, start, 0, Start(p, start));
    } else {
      Distribute(k - 1, p.config.intervalMs);
      DownReached(p, start, k - 1);
      var s :| Down(p, start, k - 1, s);
      DownLonger(p, start, k, s);
    }
  }

  lemma FirstAction(p: Setup, start: U64, s: State)
    requires ValidSetup(p) && Down(p, start, p.config.threshold - 1, s) && s.ping < CLOCK_LIMIT
    ensures exists r :: Reached(p, start, r) && r.h.actions != [] && r.h.actions[0].time == s.ping
  {
    LossAtTick(p, s);
    OnTime(p, start, s);
    assert Iterate(p, s, Unanswered(s.ping)).h.actions[0].time == s.ping;
  }

  /**
   * The earliest time is attained: every setup has a run whose first action comes exactly
   * threshold - 1 intervals after the first deadline.
   */
  lemma EarliestAttained(p: Setup, start: U64)
    requires ValidSetup(p) && start < CLOCK_LIMIT
    requires FirstDeadline(p, start) + (p.config.threshold - 1) * p.config.intervalMs < CLOCK_LIMIT
    ensures exists s :: && Reached(p, start, s) && s.h.actions != []
                        && s.h.actions[0].time
                           == FirstDeadline(p, start) + (p.config.threshold - 1) * p.config.intervalMs
  {
    DownReached(p, start, p.config.threshold - 1);
    var s :| Down(p, start, p.config.threshold - 1, s);
    FirstAction(p, start, s);
  }

  /** A tick that is late by `late` sends its probe. */
  lemma LateSend(p: Setup, s: State, late: nat)
    requires ValidSetup(p) && !s.stopping && !Armed(s.reply) && !Armed(s.watchdog)
    requires late <= p.config.intervalMs && s.ping + late < CLOCK_LIMIT
    ensures var t := s.ping + late;
            var r := Iterate(p, s, Quietly(t));
            && !r.stopping && r.now == t && r.reply == t + p.config.timeoutMs
            && r.ping == s.ping + p.config.intervalMs && !Armed(r.watchdog) && r.fails == s.fails
            && r.h.outcomes == s.h.outcomes && r.h.actions == s.h.actions && r.h.stops == s.h.stops
  {
    var t := s.ping + late;
    var a, i := At(s, t), Quietly(t);
    Slots(p, a, i);
    assert FireSlot(p, a, i, 0) == a && FireSlot(p, a, i, 1) == a;
    assert FireSlot(p, a, i, 2) == OnPing(p, a, i);
  }

  /** The loss that completes the run of losses, and its action at t. */
  predicate Completes(h: History, g: History, t: U64) {
    && g.outcomes == h.outcomes + [Stats.Lost] && |g.actions| == 1 && g.actions[0].time == t
    && h.stops <= g.stops && |g.stops| <= |h.stops| + 1
    && (|g.stops| > |h.stops| ==> g.stops[|h.stops|].cause == ActionDone)
  }

  lemma LastTimeout(p: Setup, s: State, t: U64)
    requires ValidSetup(p) && !s.stopping && Due(s.reply, t) && s.h.actions == []
    requires s.fails + 1 == p.config.threshold
    ensures Completes(s.h, FireSlot(p, At(s, t), Quietly(t), 1).h, t)
  {
    var a := At(s, t);
    var fired := a.(h := a.h.(timeouts := a.h.timeouts + [t]));
    var i := Quietly(t);
    assert VerdictOn(p, fired, i.lastChance).NoMatch?;
    var u := Record(Because(ResetProbe(fired), ByTimeout(t)), Stats.Lost);
    assert OnReply(p, a, i) == CheckThreshold(p, u, false);
  }

  /** A send that the kernel accepts leaves outcomes, actions and stops alone. */
  lemma SendKeeps(p: Setup, s: State, t: U64)
    requires !s.stopping && !Armed(s.reply)
    ensures var r := FireSlot(p, s, Quietly(t), 2);
            !r.stopping && r.h == s.h.(ticks := r.h.ticks)
  {
  }

  lemma OutageGoesOn(h: History, g: History, t: U64)
    requires Outage(h, 0) && Completes(h, g, t)
    ensures Outage(g, 0)
  {
  }

  lemma LatestStep(p: Setup, s: State, t: U64)
    requires ValidSetup(p) && !s.stopping && !Armed(s.watchdog) && Due(s.reply, t) && s.h.actions == []
    requires s.fails + 1 == p.config.threshold && Outage(s.h, 0)
    ensures var r := Iterate(p, s, Quietly(t));
            Outage(r.h, 0) && |r.h.actions| == 1 && r.h.actions[0].time == t
  {
    IterationLogs(p, s, t);
    LastTimeout(p, s, t);
    OutageGoesOn(s.h, Iterate(p, s, Quietly(t)).h, t);
  }

  /** Once the reply timer has fired, the rest of such an iteration leaves outcomes, actions and stops alone. */
  lemma IterationLogs(p: Setup, s: State, t: U64)
    requires !s.stopping && !Armed(s.watchdog) && Due(s.reply, t)
    ensures var r, s2 := Iterate(p, s, Quietly(t)), FireSlot(p, At(s, t), Quietly(t), 1);
            r.h == s2.h.(ticks := r.h.ticks)
  {
    var a, i := At(s, t), Quietly(t);
    Slots(p, a, i);
    var s2 := FireSlot(p, a, i, 1);
    assert FireSlot(p, a, i, 0) == a;
    if !s2.stopping {
      SendKeeps(p, s2, t);
    }
  }

  /** After losing every probe, punctually, the first action runs at t. */
  ghost predicate ActsAt(p: Setup, start: U64, late: nat, s: State, t: nat) {
    ReachedWithin(p, start, late, s) && Outage(s.h, 0) && s.h.actions != [] && s.h.actions[0].time == t
  }

  lemma TimeoutAttained(p: Setup, start: U64, late: nat, s: State, t: U64)
    requires ValidSetup(p) && ReachedWithin(p, start, late, s) && !s.stopping && !Armed(s.watchdog)
    requires Armed(s.reply) && s.now <= s.reply <= s.ping && t == s.reply + late < CLOCK_LIMIT
    requires s.h.actions == [] && s.fails + 1 == p.config.threshold && Outage(s.h, 0)
    ensures exists r :: ActsAt(p, start, late, r, t)
  {
    LatestStep(p, s, t);
    ReachedWithinNext(p, start, late, s, Quietly(t));
    assert ActsAt(p, start, late, Iterate(p, s, Quietly(t)), t);
  }

  /** One loss short of the threshold, the last probe is sent late and times out late. */
  lemma LatestAction(p: Setup, start: U64, late: nat, s: State, t: U64)
    requires ValidSetup(p) && Losing(p, start, p.config.threshold - 1, s) && p.beatMs == 0
    requires ReachedWithin(p, start, late, s) && late + p.config.timeoutMs <= p.config.intervalMs
    requires t == s.ping + p.config.timeoutMs + 2 * late < CLOCK_LIMIT
    ensures exists r :: ActsAt(p, start, late, r, t)
  {
    LateSend(p, s, late);
    ReachedWithinNext(p, start, late, s, Quietly(s.ping + late));
    TimeoutAttained(p, start, late, Iterate(p, s, Quietly(s.ping + late)), t);
  }

  /**
   * The detection bound is attained: for every setup without a watchdog and every lateness that
   * fits, some run punctual up to it loses every probe and acts exactly at the bound.
   */
  lemma BoundAttained(p: Setup, start: U64, late: nat)
    requires ValidSetup(p) && start < CLOCK_LIMIT && p.beatMs == 0
    requires late + p.config.timeoutMs <= p.config.intervalMs && Bound(p, start, late, 0) < CLOCK_LIMIT
    ensures exists s :: ActsAt(p, start, late, s, Bound(p, start, late, 0))
  {
    DownReached(p, start, p.config.threshold - 1);
    var s :| Down(p, start, p.config.threshold - 1, s);
    MorePunctual(p, start, 0, late, s);
    LatestAction(p, start, late, s, Bound(p, start, late, 0));
  }

  /** Every action of a target that was never up, in every run punctual up to `late`, keeps the advertised time. */
  ghost predicate KeepsAdvertised(p: Setup, start: U64, late: nat) {
    forall s :: ReachedWithin(p, start, late, s) && Outage(s.h, 0) && s.h.actions != [] ==>
      s.h.actions[0].time - FirstDeadline(p, start) <= MulSat(p.config.threshold, p.config.intervalMs)
  }

  /**
   * The advertised detection time, threshold times interval, is kept exactly while timeout plus
   * twice the lateness fits the interval.
   */
  lemma AdvertisedExactly(p: Setup, start: U64, late: nat)
    requires ValidSetup(p) && start < CLOCK_LIMIT && p.beatMs == 0
    requires late + p.config.timeoutMs <= p.config.intervalMs && Bound(p, start, late, 0) < CLOCK_LIMIT
    ensures KeepsAdvertised(p, start, late) <==> p.config.timeoutMs + 2 * late <= p.config.intervalMs
  {
    if p.config.timeoutMs + 2 * late <= p.config.intervalMs {
      forall s | ReachedWithin(p, start, late, s) && Outage(s.h, 0) && s.h.actions != []
        ensures s.h.actions[0].time - FirstDeadline(p, start) <= MulSat(p.config.threshold, p.config.intervalMs)
      {
        ShutdownInTime(p, start, late, s, 0);
      }
    } else {
      BoundAttained(p, start, late);
      var s :| ActsAt(p, start, late, s, Bound(p, start, late, 0));
      Distribute(p.config.threshold - 1, p.config.intervalMs);
      assert ReachedWithin(p, start, late, s) && Outage(s.h, 0);
    }
  }

  lemma MorePunctual(p: Setup, start: U64, early: nat, late: nat, s: State)
    requires ReachedWithin(p, start, early, s) && early <= late
    ensures ReachedWithin(p, start, late, s)
  {
    var inputs, states :|
      Execution(p, start, inputs, states) && Punctual(inputs, states, early) && states[|inputs|] == s;
    assert Punctual(inputs, states, late);
  }
}

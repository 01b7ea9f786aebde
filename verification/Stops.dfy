/** Why the loop stops, and that it stops whenever there is a reason to. */
module Stops {
  import opened Base
  import opened Timers
  import opened Monitor
  import opened Runs
  import opened Policy
  import opened Iterations
  import Icmp

  /** Once the loop has stopped no input changes anything; it stopped exactly once and recorded nothing after. */
  lemma StopIsFinal(p: Setup, start: U64, s: State, i: Input)
    requires Reached(p, start, s) && s.stopping
    ensures Iterate(p, s, i) == s
    ensures |s.h.stops| == 1 && s.h.stops[0].size == Size(s.h) && s.exitCode == s.h.stops[0].code
  {
    ReachedJudged(p, start, s);
  }

  // ---- Reasons ----

  /** A drain that runs in this iteration ends in a receive error. */
  predicate ReceiveFails(p: Setup, s: State, i: Input) {
    i.clock.Some? &&
    (|| (Due(s.reply, i.clock.value) && VerdictOn(p, s, i.lastChance).Fatal?)
     || (var polling := FireFrom(p, At(s, i.clock.value), i, 0);
         Drains(polling, i.poll) && VerdictOn(p, polling, i.poll.socket.mail).Fatal?))
  }

  /** A new action that is simulated, or whose shutdown request was accepted. */
  predicate ActionHolds(p: Setup, i: Input, h: History, k: nat) {
    && k < |h.actions| && 0 < h.actions[k].at <= |h.grounds|
    && (p.config.poweroff ==> AcceptedFor(i, h.grounds[h.actions[k].at - 1]))
  }

  predicate SendsProbe(p: Setup, s: State, i: Input) {
    var n, ticks := |s.h.ticks|, Iterate(p, s, i).h.ticks;
    n < |ticks| && ticks[n].result != Skipped
  }

  /** A short send, or an error other than the seven routing, link and buffer conditions. */
  predicate SendBroken(kernel: Icmp.KernelSend) {
    kernel != Icmp.Accepted(64) && (kernel.Refused? ==> kernel.errno !in {101, 113, 100, 112, 102, 105, 11})
  }

  /** What makes the loop stop for a cause: its trigger is in the input and is reached in this iteration. */
  ghost predicate ReasonFor(p: Setup, s: State, i: Input, c: Cause) {
    match c
    case ClockFailed => i.clock.None? || (i.poll.PollReady? && i.poll.clock.None?)
    case PollFailed => i.poll.PollError?
    case SignalChannelBroken => i.poll.PollReady? && i.poll.signal.SignalError?
    case Signalled =>
      i.poll.PollReady? && i.poll.signal in {SignalRead(Some(2)), SignalRead(Some(15))}
    case SendFailed => SendsProbe(p, s, i) && SendBroken(i.kernel)
    case ReceiveFailed => ReceiveFails(p, s, i)
    case ActionDone => exists k :: k >= |s.h.actions| && ActionHolds(p, i, Iterate(p, s, i).h, k)
  }

  // ---- Every stop has its reason ----

  /** The cause of the last stop. */
  predicate StoppedBy(s: State, c: Cause) {
    s.h.stops != [] && s.h.stops[|s.h.stops| - 1].cause == c
  }

  lemma ReplyStops(p: Setup, s: State, i: Input)
    requires !s.stopping && OnReply(p, s, i).stopping
    ensures || StoppedBy(OnReply(p, s, i), ActionDone)
            || (StoppedBy(OnReply(p, s, i), ReceiveFailed) && VerdictOn(p, s, i.lastChance).Fatal?)
  {
    var fired := s.(h := s.h.(timeouts := s.h.timeouts + [s.now]));
    assert VerdictOn(p, fired, i.lastChance) == VerdictOn(p, s, i.lastChance);
  }

  lemma PingStops(p: Setup, s: State, i: Input)
    requires !s.stopping && OnPing(p, s, i).stopping
    ensures StoppedBy(OnPing(p, s, i), ActionDone) || StoppedBy(OnPing(p, s, i), SendFailed)
  {
  }

  lemma PassStops(p: Setup, s: State, i: Input)
    requires !s.stopping && FireFrom(p, s, i, 0).stopping
    ensures var f := FireFrom(p, s, i, 0);
            || StoppedBy(f, ActionDone) || StoppedBy(f, SendFailed)
            || (StoppedBy(f, ReceiveFailed) && Due(s.reply, s.now) && VerdictOn(p, s, i.lastChance).Fatal?)
  {
    Slots(p, s, i);
    var s1 := FireSlot(p, s, i, 0);
    var s2 := FireSlot(p, s1, i, 1);
    assert VerdictOn(p, s1, i.lastChance) == VerdictOn(p, s, i.lastChance);
    if s2.stopping {
      ReplyStops(p, s1, i);
    } else {
      PingStops(p, s2, i);
    }
  }

  lemma PollStops(p: Setup, s: State, poll: Poll)
    requires !s.stopping && AfterPoll(p, s, poll).stopping
    ensures var r := AfterPoll(p, s, poll);
            || (StoppedBy(r, PollFailed) && poll.PollError?)
            || (StoppedBy(r, ClockFailed) && poll.PollReady? && poll.clock.None?)
            || (StoppedBy(r, SignalChannelBroken) && poll.PollReady? && poll.signal.SignalError?)
            || (StoppedBy(r, Signalled) && poll.PollReady?
                && poll.signal in {SignalRead(Some(2)), SignalRead(Some(15))})
            || (StoppedBy(r, ReceiveFailed) && Drains(s, poll) && VerdictOn(p, s, poll.socket.mail).Fatal?)
  {
    if poll.PollReady? && poll.clock.Some? {
      var a := At(s, poll.clock.value);
      if !OnSignal(a, poll.signal).stopping {
        assert OnSignal(a, poll.signal) == a;
        assert AfterPoll(p, s, poll) == OnSocket(p, a, poll.socket);
        assert poll.socket.Readable? ==> VerdictOn(p, a, poll.socket.mail) == VerdictOn(p, s, poll.socket.mail);
      }
    }
  }

  /** The cause of a stop fits the input; what the history adds for sends and actions comes below. */
  ghost predicate Fits(p: Setup, s: State, i: Input, c: Cause) {
    c == SendFailed || c == ActionDone || ReasonFor(p, s, i, c)
  }

  lemma IterationStops(p: Setup, s: State, i: Input)
    requires !s.stopping && Iterate(p, s, i).stopping
    ensures exists c :: StoppedBy(Iterate(p, s, i), c) && Fits(p, s, i, c)
  {
    if i.clock.None? {
      assert StoppedBy(Iterate(p, s, i), ClockFailed) && Fits(p, s, i, ClockFailed);
    } else {
      var a := At(s, i.clock.value);
      var f := FireFrom(p, a, i, 0);
      if f.stopping {
        PassStops(p, a, i);
        assert VerdictOn(p, a, i.lastChance) == VerdictOn(p, s, i.lastChance);
        assert StoppedBy(f, ReceiveFailed) ==> Fits(p, s, i, ReceiveFailed);
        assert Fits(p, s, i, ActionDone) && Fits(p, s, i, SendFailed);
      } else {
        PollStops(p, f, i.poll);
        assert StoppedBy(Iterate(p, s, i), ReceiveFailed) ==> Fits(p, s, i, ReceiveFailed);
        assert i.poll.PollError? ==> Fits(p, s, i, PollFailed);
      }
    }
  }

  /** An action that succeeds right after one that did not is new, and was accepted if it had to be. */
  lemma ActionAccepted(p: Setup, i: Input, h: History, g: History)
    requires Continues(p, i, h, g) && !ActionSucceeded(h.actions) && ActionSucceeded(g.actions)
    ensures |g.actions| > |h.actions| && ActionHolds(p, i, g, |g.actions| - 1)
  {
    assert |g.actions| > |h.actions|;
    assert ActedOn(p, i, g.grounds, g.actions[|g.actions| - 1]);
  }

  /** If the ticks end refused and did not before, the last is new and the kernel refused it. */
  lemma RefusalIsNew(i: Input, ticks: seq<Tick>, r: State)
    requires OneTick(i, ticks, r) && !SendRefused(ticks) && SendRefused(r.h.ticks)
    ensures |ticks| < |r.h.ticks| && r.h.ticks[|ticks|].result == Refused
    ensures SendBroken(i.kernel)
  {
    assert |r.h.ticks| > |ticks|;
  }

  lemma RefusalReached(p: Setup, s: State, i: Input)
    requires !s.stopping && !SendRefused(s.h.ticks) && SendRefused(Iterate(p, s, i).h.ticks)
    ensures ReasonFor(p, s, i, SendFailed)
  {
    TickAdded(p, s, i);
    RefusalIsNew(i, s.h.ticks, Iterate(p, s, i));
  }

  /** The action that stopped the loop came after the last outcome. */
  lemma ActionAtEnd(p: Setup, s: State)
    requires Judged(p, s) && s.stopping && s.h.stops[0].cause == ActionDone
    ensures s.fails >= p.config.threshold
  {
    var h := s.h;
    var a := h.actions[|h.actions| - 1];
    assert ActionSound(p, h.ticks, h.outcomes, h.resolved, a);
    assert h.outcomes[..a.at] == h.outcomes;
  }

  lemma StopReason(p: Setup, s: State, i: Input)
    requires Judged(p, s) && Balanced(s.h) && !s.stopping
    requires Judged(p, Iterate(p, s, i)) && Iterate(p, s, i).stopping
    ensures ReasonFor(p, s, i, Iterate(p, s, i).h.stops[0].cause)
  {
    var r := Iterate(p, s, i);
    IterationStops(p, s, i);
    if r.h.stops[0].cause == SendFailed {
      RefusalReached(p, s, i);
    } else if r.h.stops[0].cause == ActionDone {
      IterationContinues(p, i, s);
      ActionAccepted(p, i, s.h, r.h);
    }
  }

  /**
   * Every stop has its reason in the iteration that stopped: exit code 0 exactly for SIGINT or
   * SIGTERM and for an action of that iteration, with the threshold met, that was simulated or
   * accepted; 1 for a failed clock, poll or signal channel, a refused send, or a receive error that
   * a drain came across.
   */
  lemma StopExplained(p: Setup, start: U64, s: State, i: Input)
    requires Reached(p, start, s) && Monotone(s, i) && !s.stopping && Iterate(p, s, i).stopping
    ensures var r := Iterate(p, s, i);
            && |r.h.stops| == 1
            && var cause := r.h.stops[0].cause;
            && ReasonFor(p, s, i, cause)
            && r.exitCode == (if cause == Signalled || cause == ActionDone then 0 else 1)
            && (cause == ActionDone ==> r.fails >= p.config.threshold)
  {
    var r := Iterate(p, s, i);
    ReachedNext(p, start, s, i);
    ReachedJudged(p, start, s);
    ReachedJudged(p, start, r);
    OutstandingTracked(p, start, s);
    StopReason(p, s, i);
    if r.h.stops[0].cause == ActionDone {
      ActionAtEnd(p, r);
    }
  }

  // ---- No reason is passed over ----

  lemma PollGoesOn(p: Setup, s: State, poll: Poll)
    requires !s.stopping && !AfterPoll(p, s, poll).stopping
    ensures !poll.PollError?
    ensures poll.PollReady? ==>
              && poll.clock.Some? && !poll.signal.SignalError?
              && poll.signal !in {SignalRead(Some(2)), SignalRead(Some(15))}
              && (poll.socket.Readable? ==> !VerdictOn(p, s, poll.socket.mail).Fatal?)
  {
    if poll.PollReady? && poll.clock.Some? {
      var a := At(s, poll.clock.value);
      assert OnSignal(a, poll.signal) == a;
      assert AfterPoll(p, s, poll) == OnSocket(p, a, poll.socket);
      assert poll.socket.Readable? ==> VerdictOn(p, a, poll.socket.mail) == VerdictOn(p, s, poll.socket.mail);
    }
  }

  lemma PassGoesOn(p: Setup, s: State, i: Input)
    requires !s.stopping && !FireFrom(p, s, i, 0).stopping
    ensures Due(s.reply, s.now) ==> !VerdictOn(p, s, i.lastChance).Fatal?
  {
    Slots(p, s, i);
    var s1 := FireSlot(p, s, i, 0);
    assert VerdictOn(p, s1, i.lastChance) == VerdictOn(p, s, i.lastChance);
  }

  lemma InputGoesOn(p: Setup, s: State, i: Input, c: Cause)
    requires !s.stopping && !Iterate(p, s, i).stopping && c != ActionDone && c != SendFailed
    ensures !ReasonFor(p, s, i, c)
  {
    assert i.clock.Some?;
    var a := At(s, i.clock.value);
    var f := FireFrom(p, a, i, 0);
    assert !f.stopping && Iterate(p, s, i) == AfterPoll(p, f, i.poll);
    PassGoesOn(p, a, i);
    PollGoesOn(p, f, i.poll);
    assert VerdictOn(p, a, i.lastChance) == VerdictOn(p, s, i.lastChance);
  }

  /** While the loop runs every action failed, so no new one was simulated or accepted. */
  lemma ActionsDeclined(p: Setup, i: Input, h: History, g: History, k: nat)
    requires Continues(p, i, h, g) && |h.actions| <= k < |g.actions| && g.actions[k].result == Failed
    ensures !ActionHolds(p, i, g, k)
  {
    assert ActedOn(p, i, g.grounds, g.actions[k]);
  }

  lemma HistoryGoesOn(p: Setup, start: U64, s: State, i: Input)
    requires Reached(p, start, s) && Monotone(s, i) && !s.stopping && !Iterate(p, s, i).stopping
    ensures !ReasonFor(p, s, i, ActionDone) && !ReasonFor(p, s, i, SendFailed)
  {
    var r := Iterate(p, s, i);
    TickAdded(p, s, i);
    OutstandingTracked(p, start, s);
    IterationContinues(p, i, s);
    ReachedNext(p, start, s, i);
    forall k | |s.h.actions| <= k < |r.h.actions|
      ensures !ActionHolds(p, i, r.h, k)
    {
      RunningFailed(p, start, r, k);
      ActionsDeclined(p, i, s.h, r.h, k);
    }
  }

  lemma RunningFailed(p: Setup, start: U64, s: State, k: nat)
    requires Reached(p, start, s) && !s.stopping && k < |s.h.actions|
    ensures s.h.actions[k].result == Failed
  {
    ReachedJudged(p, start, s);
  }

  /**
   * The loop stops exactly when there is a reason to. In particular, after an iteration that goes
   * on there was no failure of the clock, poll or signal channel and no SIGINT or SIGTERM, no drain
   * that ran met a receive error, a probe that was sent was not refused, and every action that was
   * run was a shutdown request that was not accepted.
   */
  lemma StopsExactly(p: Setup, start: U64, s: State, i: Input)
    requires Reached(p, start, s) && Monotone(s, i) && !s.stopping
    ensures Iterate(p, s, i).stopping <==> exists c :: ReasonFor(p, s, i, c)
  {
    if Iterate(p, s, i).stopping {
      StopExplained(p, start, s, i);
    } else {
      HistoryGoesOn(p, start, s, i);
      forall c: Cause
        ensures !ReasonFor(p, s, i, c)
      {
        if c != ActionDone && c != SendFailed {
          InputGoesOn(p, s, i, c);
        }
      }
    }
  }
}

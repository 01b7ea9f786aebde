/** What the monitor promises over every run. */
module Guarantees {
  import opened Base
  import opened Timers
  import opened Monitor
  import opened Runs
  import opened Ledger
  import opened Schedule
  import opened Policy
  import opened Iterations
  import Config
  import Drain
  import Icmp
  import Notify
  import Stats

  /** The three invariants at once. */
  lemma Established(p: Setup, start: U64, s: State)
    requires Reached(p, start, s)
    ensures ValidSetup(p)
    ensures Timed(p, start, U64_MAX, s) && Books(s) && Judged(p, s)
  {
    ReachedValid(p, start, 0, s);
    ReachedAnyhow(p, start, s);
    ReachedTimed(p, start, U64_MAX, s);
    BooksBalance(p, start, s);
    ReachedJudged(p, start, s);
  }

  /** An environment that resolves gives the monitor a setup within the bounds its guarantees need. */
  lemma SetupFromEnvironment(env: map<string, string>, isLiteral: string -> bool, systemd: bool, c: Config.Settings,
                             notifyOpen: bool, watchdogUsec: U64, dest: Icmp.Address, id: U16)
    requires Config.Resolves(env, isLiteral, systemd, c)
    ensures ValidSetup(Setup(c, Notify.WatchdogIntervalMs(notifyOpen, watchdogUsec), dest, id))
  {
    Config.ResolvedInBounds(env, isLiteral, systemd, c);
  }

  // ---- No early shutdown ----

  /** Deadlines of later ticks are at least one interval per tick apart. */
  lemma {:induction false} TickSpacing(p: Setup, start: U64, late: nat, ticks: seq<Tick>, i: nat, j: nat)
    requires ValidSetup(p) && TickLog(p, start, late, ticks) && i <= j < |ticks|
    ensures ticks[j].deadline >= ticks[i].deadline + (j - i) * p.config.intervalMs
    decreases j - i
  {
    if i < j {
      TickSpacing(p, start, late, ticks, i, j - 1);
      assert Follows(p, ticks[j - 1], ticks[j]);
      assert (j - i) * p.config.intervalMs == (j - 1 - i) * p.config.intervalMs + p.config.intervalMs;
    }
  }

  lemma {:induction false} IncreasingGap(s: seq<nat>, i: nat, j: nat)
    requires Increasing(s) && i <= j < |s|
    ensures s[j] >= s[i] + (j - i)
    decreases j - i
  {
    if i < j {
      IncreasingGap(s, i, j - 1);
    }
  }

  /**
   * The k-th action came after `threshold` probes of distinct ticks were lost in a row, and at
   * least threshold - 1 intervals after the deadline of the first of those ticks.
   */
  predicate NotEarly(p: Setup, start: U64, h: History, k: nat)
    requires k < |h.actions|
  {
    var a, n := h.actions[k], p.config.threshold;
    && 0 < n <= a.at <= |h.outcomes| == |h.resolved|
    && (forall j :: a.at - n <= j < a.at ==> h.outcomes[j].Lost?)
    && h.resolved[a.at - n] < |h.ticks|
    && var first := h.ticks[h.resolved[a.at - n]].deadline;
    && a.time >= first + (n - 1) * p.config.intervalMs
    && first >= start + p.config.startDelayMs
  }

  /**
   * No early shutdown. However late timers fire, no action is early; in particular none runs
   * before start, start delay and threshold - 1 intervals have passed.
   */
  lemma NoEarlyShutdown(p: Setup, start: U64, s: State, k: nat)
    requires Reached(p, start, s) && k < |s.h.actions|
    ensures NotEarly(p, start, s.h, k)
  {
    ActionTracked(p, start, s, k);
    EarliestAction(p, start, s.h, k);
  }

  lemma ActionTracked(p: Setup, start: U64, s: State, k: nat)
    requires Reached(p, start, s) && k < |s.h.actions|
    ensures ValidSetup(p)
    ensures var h := s.h;
            && TickLog(p, start, U64_MAX, h.ticks) && Increasing(h.resolved)
            && (forall i :: 0 <= i < |h.resolved| ==> h.resolved[i] < |h.ticks|)
            && ActionSound(p, h.ticks, h.outcomes, h.resolved, h.actions[k])
  {
    Established(p, start, s);
  }

  lemma EarliestAction(p: Setup, start: U64, h: History, k: nat)
    requires ValidSetup(p) && TickLog(p, start, U64_MAX, h.ticks) && k < |h.actions|
    requires Increasing(h.resolved)
    requires forall i :: 0 <= i < |h.resolved| ==> h.resolved[i] < |h.ticks|
    requires ActionSound(p, h.ticks, h.outcomes, h.resolved, h.actions[k])
    ensures NotEarly(p, start, h, k)
  {
    var a, n := h.actions[k], p.config.threshold;
    var i, j := h.resolved[a.at - n], h.resolved[a.at - 1];
    IncreasingGap(h.resolved, a.at - n, a.at - 1);
    TickSpacing(p, start, U64_MAX, h.ticks, i, j);
    TickSpacing(p, start, U64_MAX, h.ticks, 0, i);
    MulMonotone(0, i, p.config.intervalMs);
    MulMonotone(n - 1, j - i, p.config.intervalMs);
    forall m | a.at - n <= m < a.at
      ensures h.outcomes[m].Lost?
    {
      assert h.outcomes[..a.at][m] == h.outcomes[m];
    }
  }

  // ---- The action is run exactly when due ----

  lemma {:induction false} PointsMeaning(o: seq<Stats.Sample>, threshold: nat, k: nat)
    ensures k in ActionPoints(o, threshold) <==> 0 < k <= |o| && LossRun(o[..k]) >= threshold
    ensures Increasing(ActionPoints(o, threshold))
    ensures forall i :: 0 <= i < |ActionPoints(o, threshold)| ==> ActionPoints(o, threshold)[i] <= |o|
  {
    if o != [] {
      var b := o[..|o| - 1];
      PointsMeaning(b, threshold, k);
      if k < |o| {
        assert o[..k] == b[..k];
      } else if k == |o| {
        assert o[..k] == o;
      }
    }
  }

  /**
   * After the k-th outcome the action runs exactly once if the run of losses has reached the
   * threshold, and not at all otherwise; in particular a failed poweroff leaves the count alone
   * and the next loss tries again.
   */
  lemma ActionExactlyWhenDue(p: Setup, start: U64, s: State, k: nat)
    requires Reached(p, start, s)
    ensures s.fails == LossRun(s.h.outcomes)
    ensures (exists i :: 0 <= i < |s.h.actions| && s.h.actions[i].at == k)
            <==> 0 < k <= |s.h.outcomes| && LossRun(s.h.outcomes[..k]) >= p.config.threshold
    ensures forall i, j :: 0 <= i < j < |s.h.actions| ==> s.h.actions[i].at < s.h.actions[j].at
    ensures !s.stopping ==> forall i :: 0 <= i < |s.h.actions| ==> s.h.actions[i].result == Failed
  {
    Established(p, start, s);
    PointsMeaning(s.h.outcomes, p.config.threshold, k);
  }

  /** A dry run acts at most once, and while it runs the count is below the threshold. */
  lemma DryRunActsOnce(p: Setup, start: U64, s: State)
    requires Reached(p, start, s) && !p.config.poweroff
    ensures |s.h.actions| <= 1
    ensures !s.stopping ==> s.h.actions == [] && s.fails < p.config.threshold
  {
    ReachedValid(p, start, 0, s);
    ReachedJudged(p, start, s);
    DryRunIn(p, s);
  }

  lemma DryRunIn(p: Setup, s: State)
    requires ValidSetup(p) && Judged(p, s) && !p.config.poweroff
    ensures |s.h.actions| <= 1
    ensures !s.stopping ==> s.h.actions == [] && s.fails < p.config.threshold
  {
    if |s.h.actions| > 0 {
      assert ActionSound(p, s.h.ticks, s.h.outcomes, s.h.resolved, s.h.actions[0]);
    }
    PointsMeaning(s.h.outcomes, p.config.threshold, |s.h.outcomes|);
    assert s.h.outcomes[..|s.h.outcomes|] == s.h.outcomes;
  }

  // ---- Conservation ----

  /**
   * Every send that was not refused is recorded as one success or one failure, is outstanding, or
   * was abandoned by the fatal receive error that stopped the loop; no two outcomes share a send.
   */
  lemma Conservation(p: Setup, start: U64, s: State)
    requires Reached(p, start, s)
    ensures |s.h.outcomes| <= U64_MAX ==>
              Sends(s.h.ticks) == s.totals.ok + s.totals.failed + (if Armed(s.reply) then 1 else 0) + s.h.abandoned
    ensures s.h.abandoned > 0 ==>
              s.h.abandoned == 1 && s.stopping && |s.h.stops| == 1 && s.h.stops[0].cause == ReceiveFailed
    ensures |s.h.resolved| == |s.h.outcomes|
    ensures forall i, j :: 0 <= i < j < |s.h.resolved| ==> s.h.resolved[i] < s.h.resolved[j] < |s.h.ticks|
    ensures s.totals == Stats.After(s.h.outcomes)
  {
    Established(p, start, s);
    BooksMeaning(s);
  }

  lemma BooksMeaning(s: State)
    requires Books(s)
    ensures |s.h.outcomes| <= U64_MAX ==>
              Sends(s.h.ticks) == s.totals.ok + s.totals.failed + (if Armed(s.reply) then 1 else 0) + s.h.abandoned
  {
    Stats.Clamped(s.h.outcomes);
  }

  // ---- The outstanding probe ----

  /** The delivered answer to the m-th send. */
  function Answer(family: Icmp.Family, id: U16, m: nat, len: nat, prefix: seq<Byte>, c0: Byte, c1: Byte): seq<Byte>
    requires len >= Icmp.ECHO_HEADER
  {
    prefix + Icmp.ReplyTo(family, Icmp.EchoRequest(family, id, Icmp.SequenceAfter(m), len), c0, c1)
  }

  /**
   * Late replies. The answer to the m-th send, from the target and behind any delivery prefix, is
   * received as a match in a reachable state exactly when a probe is outstanding whose send is a
   * multiple of 65535 sends away; while no probe is outstanding, no answer to any send is.
   */
  lemma LateReplies(p: Setup, start: U64, s: State,
                    m: nat, len: nat, prefix: seq<Byte>, c0: Byte, c1: Byte)
    requires Reached(p, start, s)
    requires m > 0 && len >= Icmp.ECHO_HEADER && Icmp.DeliveryPrefix(p.dest.family, prefix)
    ensures var a := Drain.Packet(p.dest, Answer(p.dest.family, p.id, m, len, prefix, c0, c1));
            Drain.Receive(Awaited(p, s), a) == Drain.Matched
            <==> Armed(s.reply) && (Advances(s.h.ticks) - m) % 0xFFFF == 0
  {
    ProbeTracked(p, start, s);
    LateReplyIn(p, s, m, len, prefix, c0, c1);
  }

  lemma LateReplyIn(p: Setup, s: State, m: nat, len: nat, prefix: seq<Byte>, c0: Byte, c1: Byte)
    requires OneProbe(s.reply, s.probe, s.sequence, s.h.ticks) && m > 0 && len >= Icmp.ECHO_HEADER
    requires Icmp.DeliveryPrefix(p.dest.family, prefix)
    ensures var a := Drain.Packet(p.dest, Answer(p.dest.family, p.id, m, len, prefix, c0, c1));
            Drain.Receive(Awaited(p, s), a) == Drain.Matched
            <==> Armed(s.reply) && (Advances(s.h.ticks) - m) % 0xFFFF == 0
  {
    ProbeCollides(s.reply, s.probe, s.sequence, s.h.ticks, m);
    AnswerMatches(p.dest.family, p.id, m, len, prefix, c0, c1, s.probe);
    var bytes := Answer(p.dest.family, p.id, m, len, prefix, c0, c1);
    Drain.ReceiveExactly(Awaited(p, s), Drain.Packet(p.dest, bytes));
    Icmp.MatchExactly(bytes, p.dest.family, p.id, s.probe);
  }

  lemma ProbeTracked(p: Setup, start: U64, s: State)
    requires Reached(p, start, s)
    ensures OneProbe(s.reply, s.probe, s.sequence, s.h.ticks)
  {
    BooksBalance(p, start, s);
  }

  lemma AnswerMatches(family: Icmp.Family, id: U16, m: nat, len: nat, prefix: seq<Byte>, c0: Byte, c1: Byte, probe: U16)
    requires len >= Icmp.ECHO_HEADER && Icmp.DeliveryPrefix(family, prefix)
    ensures Icmp.ReplyMatches(Answer(family, id, m, len, prefix, c0, c1), family, id, probe)
            <==> probe == Icmp.SequenceAfter(m)
  {
    Icmp.ReplyRoundTrip(family, id, Icmp.SequenceAfter(m), len, prefix, c0, c1, id, probe);
  }

  lemma ProbeCollides(reply: U64, probe: U16, sequence: U16, ticks: seq<Tick>, m: nat)
    requires OneProbe(reply, probe, sequence, ticks) && m > 0
    ensures probe == Icmp.SequenceAfter(m) <==> Armed(reply) && (Advances(ticks) - m) % 0xFFFF == 0
  {
    Icmp.SequenceClosedForm(m);
    if Armed(reply) {
      Icmp.SequencesCollide(m, Advances(ticks));
    }
  }

  // ---- Skipped ticks ----

  /**
   * A tick is skipped only right after a sending tick that was late by more than interval minus
   * timeout and at most one interval; so no two ticks in a row are skipped.
   */
  lemma SkipsExplained(p: Setup, start: U64, s: State, i: nat)
    requires Reached(p, start, s)
    requires i < |s.h.ticks| && s.h.ticks[i].result == Skipped
    ensures var ticks := s.h.ticks;
            && i > 0 && ticks[i - 1].result == Sent
            && var lateness := ticks[i - 1].fired - ticks[i - 1].deadline;
            && p.config.intervalMs - p.config.timeoutMs < lateness <= p.config.intervalMs
            && (i + 1 < |ticks| ==> ticks[i + 1].result != Skipped)
  {
    Established(p, start, s);
    var ticks := s.h.ticks;
    assert Follows(p, ticks[i - 1], ticks[i]);
    if i + 1 < |ticks| {
      assert Follows(p, ticks[i], ticks[i + 1]);
    }
  }

  /** The next iteration's tick is skipped. */
  predicate SkipsNext(p: Setup, s: State, i: Input) {
    var n, ticks := |s.h.ticks|, Iterate(p, s, i).h.ticks;
    n < |ticks| && ticks[n].result == Skipped
  }

  /** An iteration in which the clock reads t, a send is accepted and nothing else happens. */
  function Quietly(t: U64): Input {
    Input(Some(t), Mail([], 0), false, Icmp.Accepted(64), false, PollQuiet)
  }

  lemma SkipNow(p: Setup, s: State, t: U64)
    requires !s.stopping && Due(s.ping, t) && Armed(s.reply) && t < s.reply
    ensures SkipsNext(p, s, Quietly(t))
  {
    var a, i := At(s, t), Quietly(t);
    Slots(p, a, i);
    var s1 := FireSlot(p, a, i, 0);
    assert FireSlot(p, s1, i, 1) == s1;
    assert FireSlot(p, s1, i, 2) == OnPing(p, s1, i);
  }

  lemma PingSlotSkips(p: Setup, s: State, i: Input)
    requires var n, ticks := |s.h.ticks|, FireSlot(p, s, i, 2).h.ticks; n < |ticks| && ticks[n].result == Skipped
    ensures Due(s.ping, s.now) && Armed(s.reply)
  {
  }

  /** A probe that is outstanding after the reply slot has its timeout still ahead. */
  lemma ReplySlotLeaves(p: Setup, s: State, i: Input)
    requires !s.stopping
    ensures var r := FireSlot(p, s, i, 1);
            && r.h.ticks == s.h.ticks && r.ping == s.ping && r.now == s.now
            && (!r.stopping && Armed(r.reply) ==> r.reply == s.reply && s.now < s.reply)
  {
  }

  lemma PassFindsProbe(p: Setup, s: State, i: Input)
    requires !s.stopping
    requires var n, ticks := |s.h.ticks|, FireFrom(p, s, i, 0).h.ticks; n < |ticks| && ticks[n].result == Skipped
    ensures Armed(s.reply) && s.now < s.reply && s.ping <= s.now
  {
    Slots(p, s, i);
    var s1 := FireSlot(p, s, i, 0);
    ReplySlotLeaves(p, s1, i);
    PingSlotSkips(p, FireSlot(p, s1, i, 1), i);
  }

  /** A skip finds a probe outstanding whose timeout is still ahead at that reading. */
  lemma SkipFindsProbe(p: Setup, s: State, i: Input)
    requires !s.stopping && SkipsNext(p, s, i)
    ensures i.clock.Some? && Armed(s.reply) && i.clock.value < s.reply && s.ping <= i.clock.value
  {
    assert i.clock.Some?;
    var a := At(s, i.clock.value);
    PollAddsNoTick(p, FireFrom(p, a, i, 0), i.poll);
    PassFindsProbe(p, a, i);
  }

  /**
   * The last tick sent a probe that is still outstanding, and it was late by more than interval
   * minus timeout and at most one interval.
   */
  predicate MaySkip(p: Setup, s: State) {
    && s.ping < CLOCK_LIMIT && Armed(s.reply) && s.now < s.reply && s.h.ticks != []
    && var t := s.h.ticks[|s.h.ticks| - 1];
    && t.result == Sent
    && p.config.intervalMs - p.config.timeoutMs < t.fired - t.deadline <= p.config.intervalMs
  }

  lemma SkipPossible(p: Setup, start: U64, s: State)
    requires Reached(p, start, s) && !s.stopping && MaySkip(p, s)
    ensures exists i :: Monotone(s, i) && SkipsNext(p, s, i)
  {
    Established(p, start, s);
    var clock := if s.now < s.ping then s.ping else s.now;
    SkipNow(p, s, clock);
    assert Monotone(s, Quietly(clock));
  }

  lemma SkipNeeds(p: Setup, start: U64, s: State, i: Input)
    requires Reached(p, start, s) && !s.stopping && Monotone(s, i) && SkipsNext(p, s, i)
    ensures MaySkip(p, s)
  {
    SkipFindsProbe(p, s, i);
    ReachedNext(p, start, s, i);
    SkipsExplained(p, start, Iterate(p, s, i), |s.h.ticks|);
    TickAdded(p, s, i);
  }

  /** In a running loop the next tick can be skipped exactly in those states. */
  lemma SkipsExactly(p: Setup, start: U64, s: State)
    requires Reached(p, start, s) && !s.stopping
    ensures MaySkip(p, s) <==> exists i :: Monotone(s, i) && SkipsNext(p, s, i)
  {
    if MaySkip(p, s) {
      SkipPossible(p, start, s);
    }
    forall i | Monotone(s, i) && SkipsNext(p, s, i)
      ensures MaySkip(p, s)
    {
      SkipNeeds(p, start, s, i);
    }
  }

  /** The first iteration of a run whose clock reads t sends the first probe. */
  lemma FirstProbe(p: Setup, start: U64, t: U64)
    requires ValidSetup(p) && start < CLOCK_LIMIT && FirstDeadline(p, start) <= t < CLOCK_LIMIT
    ensures var s, first := Iterate(p, Start(p, start), Quietly(t)), FirstDeadline(p, start);
            && !s.stopping && s.now == t && s.reply == t + p.config.timeoutMs
            && s.ping == Step(first, p.config.intervalMs, t)
            && s.h.ticks == [Tick(first, t, Sent)]
  {
    var a, i := At(Start(p, start), t), Quietly(t);
    Slots(p, a, i);
    var s1 := FireSlot(p, a, i, 0);
    assert FireSlot(p, s1, i, 1) == s1;
    assert FireSlot(p, s1, i, 2) == OnPing(p, s1, i);
  }

  lemma SkipAfter(p: Setup, start: U64, s: State, i: Input)
    requires Reached(p, start, s) && !s.stopping && s.h.ticks != [] && Monotone(s, i) && SkipsNext(p, s, i)
    ensures var r := Iterate(p, s, i);
            && Reached(p, start, r) && |r.h.ticks| == |s.h.ticks| + 1
            && r.h.ticks[0] == s.h.ticks[0] && r.h.ticks[|s.h.ticks|].result == Skipped
  {
    ReachedNext(p, start, s, i);
    TickAdded(p, s, i);
  }

  /** Every such lateness does occur, and leads to a skip, in some run of every setup. */
  lemma SkipsHappen(p: Setup, start: U64, late: nat)
    requires ValidSetup(p) && FirstDeadline(p, start) + p.config.intervalMs < CLOCK_LIMIT
    requires p.config.intervalMs - p.config.timeoutMs < late <= p.config.intervalMs
    ensures exists s :: && Reached(p, start, s) && |s.h.ticks| > 1
                        && s.h.ticks[0].fired == s.h.ticks[0].deadline + late && s.h.ticks[1].result == Skipped
  {
    var t := FirstDeadline(p, start) + late;
    var s := Iterate(p, Start(p, start), Quietly(t));
    StartReached(p, start);
    ReachedNext(p, start, Start(p, start), Quietly(t));
    FirstProbe(p, start, t);
    SkipNow(p, s, s.ping);
    SkipAfter(p, start, s, Quietly(s.ping));
  }

  // ---- Phase ----

  lemma {:induction false} SteadyTicks(p: Setup, start: U64, late: nat, ticks: seq<Tick>, k: nat)
    requires ValidSetup(p) && TickLog(p, start, late, ticks) && k < |ticks| && late <= p.config.intervalMs
    ensures ticks[k].deadline == FirstDeadline(p, start) + k * p.config.intervalMs
  {
    if k > 0 {
      SteadyTicks(p, start, late, ticks, k - 1);
      assert Follows(p, ticks[k - 1], ticks[k]);
      assert k * p.config.intervalMs == (k - 1) * p.config.intervalMs + p.config.intervalMs;
    }
  }

  /** While no firing is more than one interval late, the k-th ping deadline keeps the original phase exactly. */
  lemma SteadyPhase(p: Setup, start: U64, s: State, late: nat, k: nat)
    requires ReachedWithin(p, start, late, s) && late <= p.config.intervalMs
    requires k < |s.h.ticks|
    ensures s.h.ticks[k].deadline == start + p.config.startDelayMs + k * p.config.intervalMs
  {
    ReachedValid(p, start, 0, s);
    ReachedTimed(p, start, late, s);
    SteadyTicks(p, start, late, s.h.ticks, k);
  }

  // ---- Progress ----

  /** At one clock reading a periodic timer fires at most twice and the reply timer at most once. */
  lemma BoundedFirings(p: Setup, start: U64, s: State, i: nat)
    requires Reached(p, start, s)
    ensures var h := s.h;
            && (i + 2 < |h.ticks| ==> h.ticks[i].fired < h.ticks[i + 2].fired)
            && (i + 2 < |h.beats| ==> h.beats[i].fired < h.beats[i + 2].fired)
            && (i + 1 < |h.timeouts| ==> h.timeouts[i] < h.timeouts[i + 1])
  {
    Established(p, start, s);
    var h := s.h;
    if i + 2 < |h.ticks| {
      assert Follows(p, h.ticks[i], h.ticks[i + 1]) && Follows(p, h.ticks[i + 1], h.ticks[i + 2]);
    }
    if i + 2 < |h.beats| {
      assert BeatFollows(p, h.beats[i], h.beats[i + 1]) && BeatFollows(p, h.beats[i + 1], h.beats[i + 2]);
    }
  }

  /** One pass over the timers leaves nothing overdue; what was not overdue before is strictly ahead after. */
  lemma PassClears(p: Setup, s: State, i: Input)
    requires ValidSetup(p) && LiveDeadlines(p, s) && !s.stopping && !FireFrom(p, s, i, 0).stopping
    ensures var f := FireFrom(p, s, i, 0);
            && (Armed(f.reply) ==> f.reply > s.now)
            && Armed(f.ping) && f.ping >= s.now && (s.ping >= s.now ==> f.ping > s.now)
            && f.watchdog >= s.now && (s.watchdog >= s.now ==> f.watchdog > s.now)
  {
    var s1 := FireSlot(p, s, i, 0);
    var s2 := FireSlot(p, s1, i, 1);
    assert FireFrom(p, s, i, 0) == FireFrom(p, s1, i, 1);
    assert FireFrom(p, s1, i, 1) == FireFrom(p, s2, i, 2);
    assert FireFrom(p, s2, i, 2) == FireSlot(p, s2, i, 2);
    PingAhead(p, s2, i);
  }

  lemma PingAhead(p: Setup, s: State, i: Input)
    requires ValidSetup(p) && s.now < CLOCK_LIMIT && (Armed(s.reply) ==> s.reply > s.now)
    ensures var f := FireSlot(p, s, i, 2);
            && (Armed(f.reply) ==> f.reply > s.now)
            && (Armed(s.ping) ==> Armed(f.ping))
            && f.ping >= s.now && (s.ping >= s.now ==> f.ping > s.now)
            && f.watchdog == s.watchdog
  {
  }

  /** Polling and dispatching move no periodic deadline, and can only disarm the reply timer. */
  lemma PollKeepsDeadlines(p: Setup, s: State, poll: Poll)
    ensures var r := AfterPoll(p, s, poll);
            r.ping == s.ping && r.watchdog == s.watchdog && (r.reply == s.reply || !Armed(r.reply))
  {
  }

  /**
   * No spinning on elapsed timers: after two iterations at one and the same clock reading, every
   * armed deadline is ahead of the clock and poll is given a positive timeout.
   */
  lemma NoSpin(p: Setup, start: U64, s: State, i: Input, j: Input)
    requires Reached(p, start, s) && Monotone(s, i) && i.clock.Some? && j.clock == i.clock
    requires var r := Iterate(p, s, i);
             !r.stopping && r.now == i.clock.value && !FireFrom(p, r, j, 0).stopping
    ensures PollTimeout(FireFrom(p, Iterate(p, s, i), j, 0)) > 0
  {
    ReachedNext(p, start, s, i);
    AlwaysLive(p, start, s);
    AlwaysLive(p, start, Iterate(p, s, i));
    IterationClears(p, s, i);
    SecondPass(p, Iterate(p, s, i), j);
  }

  lemma SecondPass(p: Setup, s: State, i: Input)
    requires ValidSetup(p) && LiveDeadlines(p, s) && !s.stopping && !FireFrom(p, s, i, 0).stopping
    requires s.ping >= s.now && s.watchdog >= s.now
    ensures PollTimeout(FireFrom(p, s, i, 0)) > 0
  {
    PassClears(p, s, i);
    Sleeps(FireFrom(p, s, i, 0));
  }

  lemma Sleeps(s: State)
    requires Armed(s.ping) && s.ping > s.now && s.watchdog > s.now && (Armed(s.reply) ==> s.reply > s.now)
    ensures PollTimeout(s) > 0
  {
  }

  lemma AlwaysLive(p: Setup, start: U64, s: State)
    requires Reached(p, start, s)
    ensures ValidSetup(p) && LiveDeadlines(p, s)
  {
    Established(p, start, s);
  }

  lemma IterationClears(p: Setup, s: State, i: Input)
    requires ValidSetup(p) && LiveDeadlines(p, s)
    requires i.clock.Some? && s.now <= i.clock.value < CLOCK_LIMIT && !Iterate(p, s, i).stopping
    ensures Iterate(p, s, i).ping >= i.clock.value && Iterate(p, s, i).watchdog >= i.clock.value
  {
    var a := At(s, i.clock.value);
    var f := FireFrom(p, a, i, 0);
    assert !f.stopping && Iterate(p, s, i) == AfterPoll(p, f, i.poll);
    PassClears(p, a, i);
    PollKeepsDeadlines(p, f, i.poll);
  }

  // ---- Poll ----

  /** What the poll timeout means for the armed deadlines. */
  predicate GoodSleep(s: State, slot: nat)
    requires slot < SLOTS
  {
    var timeout := PollTimeout(s);
    && 0 <= timeout <= 2147483647
    && (timeout == 0 <==> exists k :: 0 <= k < SLOTS && Due(Deadline(s, k), s.now))
    && (timeout > 0 && Armed(Deadline(s, slot)) ==> s.now + timeout <= Deadline(s, slot))
    && (0 < timeout < 2147483647 ==> exists k :: 0 <= k < SLOTS && Deadline(s, k) == s.now + timeout)
  }

  lemma NearestSleep(s: State, slot: nat)
    requires Armed(s.ping) && slot < SLOTS
    ensures GoodSleep(s, slot)
  {
    var w, r, p := Deadline(s, 0), Deadline(s, 1), Deadline(s, 2);
    assert Nearest(s) == w || Nearest(s) == r || Nearest(s) == p;
  }

  /** The timers do not know what poll will answer. */
  lemma PollComesLater(p: Setup, s: State, i: Input)
    requires !s.stopping
    ensures FireFrom(p, s, i, 0) == FireFrom(p, s, i.(poll := PollQuiet), 0)
  {
    var j := i.(poll := PollQuiet);
    var s1 := FireSlot(p, s, i, 0);
    var s2 := FireSlot(p, s1, i, 1);
    SlotIgnoresPoll(p, s1, i, 1);
    SlotIgnoresPoll(p, s2, i, 2);
    Slots(p, s, i);
    Slots(p, s, j);
    assert FireSlot(p, s, j, 0) == s1;
  }

  lemma SlotIgnoresPoll(p: Setup, s: State, i: Input, slot: nat)
    requires slot < SLOTS
    ensures FireSlot(p, s, i, slot) == FireSlot(p, s, i.(poll := PollQuiet), slot)
  {
  }

  /** The state in which poll is called is itself a reachable one. */
  lemma PollingReached(p: Setup, start: U64, s: State, i: Input)
    requires Reached(p, start, s) && Monotone(s, i) && !s.stopping && i.clock.Some?
    ensures Reached(p, start, FireFrom(p, At(s, i.clock.value), i, 0))
  {
    var j := i.(poll := PollQuiet);
    ReachedNext(p, start, s, j);
    PollComesLater(p, At(s, i.clock.value), i);
    assert Iterate(p, s, j) == FireFrom(p, At(s, i.clock.value), j, 0);
  }

  /**
   * Poll never oversleeps and the schedule never dies: whenever poll is called the ping timer is
   * armed, the timeout is not the endless -1, it is zero exactly when a timer is due, and sleeping
   * it out passes no armed deadline and, unless capped, ends at one.
   */
  lemma NeverOversleeps(p: Setup, start: U64, s: State, i: Input, slot: nat)
    requires Reached(p, start, s) && Monotone(s, i) && !s.stopping && i.clock.Some? && slot < SLOTS
    ensures var polling := FireFrom(p, At(s, i.clock.value), i, 0);
            Armed(polling.ping) && GoodSleep(polling, slot)
  {
    var polling := FireFrom(p, At(s, i.clock.value), i, 0);
    PollingReached(p, start, s, i);
    AlwaysLive(p, start, polling);
    NearestSleep(polling, slot);
  }

  // ---- Watchdog ----

  lemma BeatGaps(p: Setup, start: U64, late: nat, beats: seq<Beat>, now: U64, watchdog: U64, i: nat, t: U64)
    requires ValidSetup(p) && p.beatMs > 0 && start < CLOCK_LIMIT
    requires BeatLog(p, start, late, beats, now, watchdog) && InTime(watchdog, t, late)
    ensures beats != [] ==> beats[0].fired - start <= p.beatMs + late
    ensures i + 1 < |beats| ==> beats[i + 1].fired - beats[i].fired <= p.beatMs + late
    ensures t - (if beats == [] then start else beats[|beats| - 1].fired) <= p.beatMs + late
  {
    if i + 1 < |beats| {
      assert BeatFollows(p, beats[i], beats[i + 1]);
    }
  }

  /**
   * Heartbeats are never more than interval plus lateness apart, through phase-keeping and catching
   * up alike, from the start and up to any reading t the loop can take next. With a systemd
   * deadline of at least two milliseconds and lateness within the interval, every such gap fits
   * the deadline.
   */
  lemma WatchdogGap(p: Setup, start: U64, s: State, late: nat, usec: U64, t: U64, i: nat)
    requires ReachedWithin(p, start, late, s)
    requires p.beatMs == Notify.WatchdogIntervalMs(true, usec) && p.beatMs > 0
    requires InTimeAll(s, Some(t), late)
    ensures var beats := s.h.beats;
            var gap := p.beatMs + late;
            && (beats != [] ==> beats[0].fired - start <= gap)
            && (i + 1 < |beats| ==> beats[i + 1].fired - beats[i].fired <= gap)
            && (!s.stopping ==>
                  t - (if beats == [] then start else beats[|beats| - 1].fired) <= gap)
            && (usec >= 2000 && late <= p.beatMs ==> gap * 1000 <= usec)
  {
    BeatsTracked(p, start, s, late);
    BeatGaps(p, start, late, s.h.beats, s.now, s.watchdog, i, if s.stopping then 0 else t);
    GapFits(p.beatMs, late, usec);
  }

  lemma BeatsTracked(p: Setup, start: U64, s: State, late: nat)
    requires ReachedWithin(p, start, late, s)
    ensures ValidSetup(p) && start < CLOCK_LIMIT
    ensures BeatLog(p, start, late, s.h.beats, s.now, s.watchdog)
  {
    ReachedValid(p, start, 0, s);
    ReachedTimed(p, start, late, s);
  }

  lemma GapFits(ms: U64, late: nat, usec: U64)
    requires ms == Notify.WatchdogIntervalMs(true, usec) && ms > 0
    ensures usec >= 2000 && late <= ms ==> (ms + late) * 1000 <= usec
  {
  }
}

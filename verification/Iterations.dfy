/** What one iteration adds to the history, traced to the input of that iteration. */
module Iterations {
  import opened Base
  import opened Timers
  import opened Monitor
  import opened Runs
  import opened Evidence
  import Drain
  import Icmp
  import Stats

  /** The answer of the shutdown command that an action after an outcome with this ground depends on. */
  function AcceptedFor(i: Input, g: Ground): bool {
    if g.ByTimeout? then i.replyAccepted else i.sendAccepted
  }

  /** The action follows a loss and has the result of the answer given for that loss. */
  predicate ActedOn(p: Setup, i: Input, grounds: seq<Ground>, a: Action) {
    && 0 < a.at <= |grounds|
    && var g := grounds[a.at - 1];
    && !g.ByReply?
    && a.result == ActionResultOf(p, AcceptedFor(i, g))
  }

  predicate Balanced(h: History) {
    |h.grounds| == |h.outcomes| == |h.resolved|
  }

  /** The logs only grow, and every action that is new has the result its loss was answered with. */
  predicate Continues(p: Setup, i: Input, h: History, g: History) {
    && Balanced(g)
    && h.ticks <= g.ticks && h.grounds <= g.grounds && h.resolved <= g.resolved && h.actions <= g.actions
    && forall k :: |h.actions| <= k < |g.actions| ==> ActedOn(p, i, g.grounds, g.actions[k])
  }

  lemma ContinuesOn(p: Setup, i: Input, h: History, g: History, f: History)
    requires Continues(p, i, h, g) && Continues(p, i, g, f)
    ensures Continues(p, i, h, f)
  {
    forall k | |h.actions| <= k < |f.actions|
      ensures ActedOn(p, i, f.grounds, f.actions[k])
    {
      if k < |g.actions| {
        assert f.actions[k] == g.actions[k] && ActedOn(p, i, g.grounds, g.actions[k]);
      }
    }
  }

  /** A loss recorded with its ground, and the action that may follow it. */
  lemma LossContinues(p: Setup, i: Input, s: State, g: Ground)
    requires Balanced(s.h) && !g.ByReply?
    ensures Continues(p, i, s.h, CheckThreshold(p, Record(Because(s, g), Stats.Lost), AcceptedFor(i, g)).h)
  {
  }

  lemma DrainContinues(p: Setup, i: Input, s: State, mail: Mail)
    requires Balanced(s.h)
    ensures Continues(p, i, s.h, Drained(p, s, mail).h)
  {
  }

  lemma ReplyContinues(p: Setup, i: Input, s: State)
    requires Balanced(s.h) && !s.stopping
    ensures Continues(p, i, s.h, OnReply(p, s, i).h)
  {
    var fired := s.(h := s.h.(timeouts := s.h.timeouts + [s.now]));
    DrainContinues(p, i, fired, i.lastChance);
    if VerdictOn(p, fired, i.lastChance).NoMatch? {
      LossContinues(p, i, ResetProbe(fired), ByTimeout(s.now));
    }
  }

  lemma PingContinues(p: Setup, i: Input, s: State)
    requires Balanced(s.h)
    ensures Continues(p, i, s.h, OnPing(p, s, i).h)
  {
    var result := TickResultOf(s, Icmp.StatusOf(i.kernel, PACKET_SIZE));
    var t := Ticked(p, s, result);
    if result == Unreachable {
      LossContinues(p, i, t, BySend);
      ContinuesOn(p, i, s.h, t.h, OnPing(p, s, i).h);
    }
  }

  /** Polling is a drain of the socket, or leaves every log but the stops alone. */
  lemma PollEffect(p: Setup, s: State, poll: Poll)
    ensures var r := AfterPoll(p, s, poll);
            || r.h == s.h.(stops := r.h.stops)
            || (poll.PollReady? && poll.clock.Some? && poll.socket.Readable?
                && r == Drained(p, At(s, poll.clock.value), poll.socket.mail))
  {
  }

  lemma PollContinues(p: Setup, i: Input, s: State)
    requires Balanced(s.h)
    ensures Continues(p, i, s.h, AfterPoll(p, s, i.poll).h)
  {
    PollEffect(p, s, i.poll);
    if i.poll.PollReady? && i.poll.clock.Some? && i.poll.socket.Readable? {
      DrainContinues(p, i, At(s, i.poll.clock.value), i.poll.socket.mail);
    }
  }

  /** Signals are served before the socket, so the socket is drained only if none of them stops the loop. */
  predicate Drains(s: State, poll: Poll) {
    && !s.stopping && poll.PollReady? && poll.clock.Some? && poll.socket.Readable?
    && !OnSignal(s, poll.signal).stopping
  }

  /** The pass over the timers, slot by slot. */
  lemma Slots(p: Setup, s: State, i: Input)
    requires !s.stopping
    ensures var s1 := FireSlot(p, s, i, 0);
            var s2 := FireSlot(p, s1, i, 1);
            && !s1.stopping && s1 == s.(watchdog := s1.watchdog, h := s.h.(beats := s1.h.beats))
            && FireFrom(p, s, i, 0) == (if s2.stopping then s2 else FireSlot(p, s2, i, 2))
  {
    var s1 := FireSlot(p, s, i, 0);
    var s2 := FireSlot(p, s1, i, 1);
    assert FireFrom(p, s, i, 0) == FireFrom(p, s1, i, 1) == FireFrom(p, s2, i, 2);
  }

  lemma TimersContinue(p: Setup, i: Input, s: State)
    requires Balanced(s.h) && !s.stopping
    ensures Continues(p, i, s.h, FireFrom(p, s, i, 0).h)
  {
    Slots(p, s, i);
    var s1 := FireSlot(p, s, i, 0);
    var s2 := FireSlot(p, s1, i, 1);
    ReplyContinues(p, i, s1);
    PingContinues(p, i, s2);
    ContinuesOn(p, i, s.h, s2.h, FireFrom(p, s, i, 0).h);
  }

  lemma IterationContinues(p: Setup, i: Input, s: State)
    requires Balanced(s.h)
    ensures Continues(p, i, s.h, Iterate(p, s, i).h)
  {
    if !s.stopping && i.clock.Some? {
      var f := FireFrom(p, At(s, i.clock.value), i, 0);
      TimersContinue(p, i, At(s, i.clock.value));
      PollContinues(p, i, f);
      if !f.stopping {
        ContinuesOn(p, i, s.h, f.h, AfterPoll(p, f, i.poll).h);
      }
    }
  }

  // ---- Ticks ----

  /** At most one tick is new; it is skipped, or its result is the kernel's answer, and a refusal stops the loop. */
  predicate OneTick(i: Input, ticks: seq<Tick>, r: State) {
    && ticks <= r.h.ticks && |r.h.ticks| <= |ticks| + 1
    && (|r.h.ticks| > |ticks| ==>
          var result := r.h.ticks[|ticks|].result;
          && (result != Skipped ==>
                && (result == Sent <==> i.kernel == Icmp.Accepted(64))
                && (result == Unreachable <==>
                      i.kernel.Refused? && i.kernel.errno in {101, 113, 100, 112, 102, 105, 11}))
          && (result == Refused ==> r.stopping))
  }

  lemma PingSlotTick(p: Setup, s: State, i: Input)
    ensures OneTick(i, s.h.ticks, FireSlot(p, s, i, 2))
  {
    Icmp.SendStatusExactly(i.kernel, PACKET_SIZE);
  }

  lemma PassTick(p: Setup, s: State, i: Input)
    requires !s.stopping
    ensures OneTick(i, s.h.ticks, FireFrom(p, s, i, 0))
  {
    Slots(p, s, i);
    var s2 := FireSlot(p, FireSlot(p, s, i, 0), i, 1);
    assert s2.h.ticks == s.h.ticks;
    PingSlotTick(p, s2, i);
  }

  lemma TickAdded(p: Setup, s: State, i: Input)
    requires !s.stopping
    ensures OneTick(i, s.h.ticks, Iterate(p, s, i))
  {
    if i.clock.Some? {
      var f := FireFrom(p, At(s, i.clock.value), i, 0);
      PassTick(p, At(s, i.clock.value), i);
      PollAddsNoTick(p, f, i.poll);
    }
  }

  lemma PollAddsNoTick(p: Setup, s: State, poll: Poll)
    ensures AfterPoll(p, s, poll).h.ticks == s.h.ticks
  {
  }

  // ---- Losses by timeout ----

  /** From here on nothing is recorded as timed out. */
  predicate NoTimeoutSince(h: History, g: History) {
    && h.grounds <= g.grounds
    && forall k :: |h.grounds| <= k < |g.grounds| ==> !g.grounds[k].ByTimeout?
  }

  lemma PingRecordsNoTimeout(p: Setup, s: State, i: Input)
    ensures NoTimeoutSince(s.h, FireSlot(p, s, i, 2).h)
  {
  }

  lemma DrainRecordsNoTimeout(p: Setup, s: State, mail: Mail)
    ensures NoTimeoutSince(s.h, Drained(p, s, mail).h)
  {
  }

  lemma PollRecordsNoTimeout(p: Setup, s: State, poll: Poll)
    ensures NoTimeoutSince(s.h, AfterPoll(p, s, poll).h)
  {
    PollEffect(p, s, poll);
    if poll.PollReady? && poll.clock.Some? && poll.socket.Readable? {
      DrainRecordsNoTimeout(p, At(s, poll.clock.value), poll.socket.mail);
    }
  }

  lemma AfterReplySlot(p: Setup, s: State, i: Input)
    ensures var f := FireSlot(p, s, i, 2);
            NoTimeoutSince(s.h, f.h) && NoTimeoutSince(s.h, AfterPoll(p, f, i.poll).h)
  {
    PingRecordsNoTimeout(p, s, i);
    PollRecordsNoTimeout(p, FireSlot(p, s, i, 2), i.poll);
  }

  /** A new outcome, recorded as timed out. */
  predicate TimedOut(h: History, g: History, k: nat) {
    |h.grounds| <= k < |g.grounds| && g.grounds[k].ByTimeout?
  }

  /** The only timeout an iteration records is for the probe outstanding before it, after a drain that found nothing. */
  lemma TimeoutRecorded(p: Setup, s: State, i: Input, k: nat)
    requires Balanced(s.h)
    ensures var h := Iterate(p, s, i).h;
            TimedOut(s.h, h, k) ==>
              && k == |s.h.grounds| && i.clock.Some? && Due(s.reply, i.clock.value)
              && VerdictOn(p, s, i.lastChance).NoMatch?
              && k < |h.resolved| && h.resolved[k] == LastSend(s.h.ticks)
  {
    if !s.stopping && i.clock.Some? {
      var a := At(s, i.clock.value);
      Slots(p, a, i);
      var s1 := FireSlot(p, a, i, 0);
      var s2 := FireSlot(p, s1, i, 1);
      assert s1.h.grounds == s.h.grounds && s1.h.resolved == s.h.resolved && s1.h.ticks == s.h.ticks;
      assert VerdictOn(p, s1, i.lastChance) == VerdictOn(p, s, i.lastChance);
      ReplyRecords(p, s1, i);
      if !s2.stopping {
        AfterReplySlot(p, s2, i);
        RestContinues(p, s2, i);
      }
    }
  }

  /** The reply slot records at most one outcome, as timed out exactly when the drain found nothing. */
  lemma ReplyRecords(p: Setup, s: State, i: Input)
    requires Balanced(s.h) && !s.stopping
    ensures var h := FireSlot(p, s, i, 1).h;
            && Balanced(h) && |h.grounds| <= |s.h.grounds| + 1 && s.h.grounds <= h.grounds
            && (|h.grounds| > |s.h.grounds| ==>
                  && Due(s.reply, s.now) && h.resolved == s.h.resolved + [LastSend(s.h.ticks)]
                  && (h.grounds[|s.h.grounds|].ByTimeout? ==> VerdictOn(p, s, i.lastChance).NoMatch?))
  {
    var fired := s.(h := s.h.(timeouts := s.h.timeouts + [s.now]));
    assert VerdictOn(p, fired, i.lastChance) == VerdictOn(p, s, i.lastChance);
  }

  lemma RestContinues(p: Setup, s: State, i: Input)
    requires Balanced(s.h) && !s.stopping
    ensures var f := FireSlot(p, s, i, 2);
            Continues(p, i, s.h, f.h) && Continues(p, i, s.h, AfterPoll(p, f, i.poll).h)
  {
    PingContinues(p, i, s);
    var f := FireSlot(p, s, i, 2);
    PollContinues(p, i, f);
    ContinuesOn(p, i, s.h, f.h, AfterPoll(p, f, i.poll).h);
  }

  /** A drain that found nothing saw no answer and no error among the arrivals it looked at. */
  lemma NothingFound(x: Drain.Expected, q: seq<Drain.Arrival>, m: nat)
    requires Drain.Verdict32(x, true, q).NoMatch? && m < |q| && m < 32
    ensures !Drain.Settles(x, true, q[m])
  {
    Drain.VerdictExactly(x, true, q);
  }

  lemma OutstandingTracked(p: Setup, start: U64, s: State)
    requires Reached(p, start, s)
    ensures Balanced(s.h) && Awaiting(p, s.reply, s.probe, s.h.ticks)
  {
    ReachedGrounded(p, start, s);
  }

  lemma SequenceKept(ticks: seq<Tick>, us: seq<Tick>, j: nat)
    requires ticks <= us && j < |ticks|
    ensures SequenceOf(us, j) == SequenceOf(ticks, j)
  {
    assert us[..j + 1] == ticks[..j + 1];
  }

  /** A timeout is charged to the probe that was outstanding, after a drain that found nothing. */
  lemma ChargedProbe(p: Setup, start: U64, s: State, i: Input, k: nat)
    requires Reached(p, start, s) && TimedOut(s.h, Iterate(p, s, i).h, k)
    ensures var h := Iterate(p, s, i).h;
            && k < |h.resolved| && h.resolved[k] < |h.ticks| && SequenceOf(h.ticks, h.resolved[k]) == s.probe
    ensures Armed(s.reply) && VerdictOn(p, s, i.lastChance).NoMatch?
  {
    OutstandingTracked(p, start, s);
    TimeoutRecorded(p, s, i, k);
    IterationContinues(p, i, s);
    SequenceKept(s.h.ticks, Iterate(p, s, i).h.ticks, LastSend(s.h.ticks));
  }

  /**
   * A loss by timeout is recorded only when none of the first 32 packets waiting at the last chance
   * answered the probe it is charged to.
   */
  lemma TimeoutsUnanswered(p: Setup, start: U64, s: State, i: Input, k: nat, m: nat)
    requires Reached(p, start, s) && m < |i.lastChance.queue| && m < 32
    ensures var h := Iterate(p, s, i).h;
            TimedOut(s.h, h, k) ==>
              && k < |h.resolved| && h.resolved[k] < |h.ticks|
              && var x := Drain.Expected(p.dest, p.id, SequenceOf(h.ticks, h.resolved[k]));
              !i.lastChance.queue[m].Broken? && !Drain.Answers(x, i.lastChance.queue[m])
  {
    if TimedOut(s.h, Iterate(p, s, i).h, k) {
      ChargedProbe(p, start, s, i, k);
      NothingFound(Awaited(p, s), i.lastChance.queue, m);
    }
  }
}

/** One probe from send to outcome: every answer of the kernel and every answer of the target counts. */
module Probes {
  import opened Base
  import opened Timers
  import opened Monitor
  import opened Runs
  import opened Ledger
  import opened Policy
  import opened Evidence
  import opened Iterations
  import opened Guarantees
  import Drain
  import Icmp
  import Stats
  import Stops

  /** The state in which the ping slot is looked at, after the watchdog and the reply slot. */
  function BeforePing(p: Setup, s: State, i: Input): State
    requires i.clock.Some?
  {
    FireSlot(p, FireSlot(p, At(s, i.clock.value), i, 0), i, 1)
  }

  // ---- Sending ----

  /** What a tick that finds no probe outstanding does, by the kernel's answer. */
  lemma TickEffect(p: Setup, s: State, i: Input)
    requires ValidSetup(p) && !s.stopping && !Armed(s.reply) && Due(s.ping, s.now) && s.now < CLOCK_LIMIT
    ensures var f := FireSlot(p, s, i, 2);
            && |f.h.ticks| == |s.h.ticks| + 1 && s.h.ticks <= f.h.ticks
            && f.h.ticks[|s.h.ticks|].fired == s.now && f.h.ticks[|s.h.ticks|].deadline == s.ping
            && (f.h.ticks[|s.h.ticks|].result == Sent <==> i.kernel == Icmp.Accepted(64))
            && f.h.ticks[|s.h.ticks|].result != Skipped
            && (if i.kernel == Icmp.Accepted(64)
                then !f.stopping && f.reply == s.now + p.config.timeoutMs && f.probe == f.sequence
                else !Armed(f.reply))
            && f.h.outcomes == s.h.outcomes
                               + if f.h.ticks[|s.h.ticks|].result == Unreachable then [Stats.Lost] else []
  {
    Icmp.SendStatusExactly(i.kernel, PACKET_SIZE);
  }

  /** With no probe outstanding polling records nothing. */
  lemma IdlePoll(p: Setup, s: State, poll: Poll)
    requires !Armed(s.reply)
    ensures var r := AfterPoll(p, s, poll);
            && !Armed(r.reply) && r.fails == s.fails
            && r.h.outcomes == s.h.outcomes && r.h.resolved == s.h.resolved && r.h.actions == s.h.actions
  {
    if poll.PollReady? && poll.clock.Some? && poll.socket.Readable? {
      var a := At(s, poll.clock.value);
      Drain.VerdictExactly(Awaited(p, a), false, poll.socket.mail.queue);
      var k := Drain.First(Awaited(p, a), false, poll.socket.mail.queue);
      assert !VerdictOn(p, a, poll.socket.mail).Found?;
    }
  }

  /** Where an iteration ends that reaches the ping slot running. */
  lemma FromPing(p: Setup, s: State, i: Input)
    requires !s.stopping && i.clock.Some? && !BeforePing(p, s, i).stopping
    ensures var b := BeforePing(p, s, i);
            var f := FireFrom(p, At(s, i.clock.value), i, 0);
            && f == FireSlot(p, b, i, 2)
            && Iterate(p, s, i) == (if f.stopping then f else AfterPoll(p, f, i.poll))
            && b.now == i.clock.value && b.ping == s.ping && b.h.ticks == s.h.ticks
  {
    Slots(p, At(s, i.clock.value), i);
  }

  /**
   * The kernel's answer decides what becomes of a send, in every reachable running state at a due
   * tick that finds no probe outstanding. Each of the seven routing, link and buffer conditions is
   * exactly one loss and never a failed send; any other error and any short send stops the loop with
   * exit code 1 and records nothing; and only a send of all 64 bytes arms the reply timer.
   */
  lemma SendDecides(p: Setup, start: U64, s: State, i: Input)
    requires Reached(p, start, s) && Monotone(s, i) && !s.stopping && i.clock.Some? && Due(s.ping, i.clock.value)
    requires !BeforePing(p, s, i).stopping && !Armed(BeforePing(p, s, i).reply)
    ensures var b, r := BeforePing(p, s, i), Iterate(p, s, i);
            var f := FireFrom(p, At(s, i.clock.value), i, 0);
            && (Armed(f.reply) <==> i.kernel == Icmp.Accepted(64))
            && (i.kernel == Icmp.Accepted(64) ==>
                  f.reply == i.clock.value + p.config.timeoutMs && f.h.outcomes == b.h.outcomes)
            && (i.kernel.Refused? && i.kernel.errno in {101, 113, 100, 112, 102, 105, 11} ==>
                  && r.h.outcomes == b.h.outcomes + [Stats.Lost]
                  && forall k :: 0 <= k < |r.h.stops| ==> r.h.stops[k].cause != SendFailed)
            && (Stops.SendBroken(i.kernel) ==>
                  && r.stopping && r.exitCode == 1 && r.h.outcomes == b.h.outcomes
                  && |r.h.stops| == 1 && r.h.stops[0].cause == SendFailed)
  {
    ReachedValid(p, start, 0, s);
    FromPing(p, s, i);
    var b, f := BeforePing(p, s, i), FireFrom(p, At(s, i.clock.value), i, 0);
    TickEffect(p, b, i);
    if i.kernel != Icmp.Accepted(64) {
      IdlePoll(p, f, i.poll);
    }
    TickAdded(p, s, i);
    PollAddsNoTick(p, f, i.poll);
    ReachedNext(p, start, s, i);
    RefusedExactly(p, start, Iterate(p, s, i));
  }

  /** The loop has stopped for a failed send exactly when its last tick was refused. */
  lemma RefusedExactly(p: Setup, start: U64, s: State)
    requires Reached(p, start, s)
    ensures if SendRefused(s.h.ticks) then
              s.stopping && s.exitCode == 1 && |s.h.stops| == 1 && s.h.stops[0].cause == SendFailed
            else forall k :: 0 <= k < |s.h.stops| ==> s.h.stops[k].cause != SendFailed
  {
    ReachedJudged(p, start, s);
  }

  /** With no probe outstanding before the iteration, its ping slot is reached running and nothing is recorded first. */
  lemma IdleBefore(p: Setup, s: State, i: Input)
    requires !s.stopping && i.clock.Some? && !Armed(s.reply)
    ensures var b := BeforePing(p, s, i);
            && !b.stopping && !Armed(b.reply)
            && b.h.outcomes == s.h.outcomes && b.fails == s.fails && b.h.actions == s.h.actions
  {
    Slots(p, At(s, i.clock.value), i);
  }

  // ---- Answers ----

  /** Among the first 32 packets, with no error before it, is the answer to the last probe sent. */
  predicate AnswerWaiting(p: Setup, ticks: seq<Tick>, q: seq<Drain.Arrival>, k: nat) {
    && ticks != [] && k < |q| && k < 32
    && Drain.Answers(Drain.Expected(p.dest, p.id, SequenceOf(ticks, LastSend(ticks))), q[k])
    && forall j :: 0 <= j < k ==> !q[j].Broken?
  }

  /** A drain finds an answer that is waiting. */
  lemma AnswerFound(p: Setup, s: State, mail: Mail, k: nat)
    requires Armed(s.reply) && Awaiting(p, s.reply, s.probe, s.h.ticks) && AnswerWaiting(p, s.h.ticks, mail.queue, k)
    ensures VerdictOn(p, s, mail).Found?
  {
    var x, q := Awaited(p, s), mail.queue;
    assert Drain.Settles(x, true, q[k]);
    Drain.FirstExactly(x, true, q);
    Drain.VerdictExactly(x, true, q);
    var f := Drain.First(x, true, q);
    assert f <= k && Drain.FirstToSettle(x, true, q, f);
    assert Drain.SettledBy(q[f], VerdictOn(p, s, mail));
  }

  /** The probe outstanding in s is recorded as answered, which clears the count and runs no action. */
  predicate Credited(s: State, r: State, latencyUs: Stats.Latency) {
    && r.h.outcomes == s.h.outcomes + [Stats.Answered(latencyUs)]
    && r.h.resolved == s.h.resolved + [LastSend(s.h.ticks)]
    && r.fails == 0 && r.h.actions == s.h.actions && !Armed(r.reply)
  }

  lemma DrainCredits(p: Setup, s: State, mail: Mail)
    requires VerdictOn(p, s, mail).Found?
    ensures Credited(s, Drained(p, s, mail), mail.latencyUs)
    ensures Drained(p, s, mail).stopping == s.stopping
  {
  }

  lemma ReplySlotCredits(p: Setup, s: State, i: Input)
    requires !s.stopping && Due(s.reply, s.now) && VerdictOn(p, s, i.lastChance).Found?
    ensures var b := FireSlot(p, FireSlot(p, s, i, 0), i, 1);
            Credited(s, b, i.lastChance.latencyUs) && !b.stopping && b.ping == s.ping
  {
    Slots(p, s, i);
    var s1 := FireSlot(p, s, i, 0);
    var fired := s1.(h := s1.h.(timeouts := s1.h.timeouts + [s1.now]));
    assert VerdictOn(p, fired, i.lastChance) == VerdictOn(p, s, i.lastChance);
    DrainCredits(p, fired, i.lastChance);
    assert OnReply(p, s1, i) == Drained(p, fired, i.lastChance);
  }

  /**
   * A reply that is in the socket when its timer fires is not a loss: in every reachable running
   * state, if the answer to the outstanding probe is among the first 32 packets with no error
   * before it, the reply timer records it as answered with its latency, clears the count, and no
   * action is run for it; unless a tick is due as well, the iteration records nothing else.
   */
  lemma AnsweredAtTimeout(p: Setup, start: U64, s: State, i: Input, k: nat)
    requires Reached(p, start, s) && Monotone(s, i) && !s.stopping && i.clock.Some? && Due(s.reply, i.clock.value)
    requires AnswerWaiting(p, s.h.ticks, i.lastChance.queue, k)
    ensures var b, r := BeforePing(p, s, i), Iterate(p, s, i);
            && Credited(s, b, i.lastChance.latencyUs) && !b.stopping
            && (!Due(s.ping, i.clock.value) ==> Credited(s, r, i.lastChance.latencyUs))
            && b.h.outcomes <= r.h.outcomes
            && forall j :: 0 <= j < |r.h.actions| ==> r.h.actions[j].at != |b.h.outcomes|
  {
    var a, b, r := At(s, i.clock.value), BeforePing(p, s, i), Iterate(p, s, i);
    OutstandingTracked(p, start, s);
    AnswerFound(p, a, i.lastChance, k);
    ReplySlotCredits(p, a, i);
    FromPing(p, s, i);
    var f := FireFrom(p, a, i, 0);
    if !Due(s.ping, i.clock.value) {
      IdlePoll(p, f, i.poll);
    }
    OutcomesGrow(p, b, i);
    ReachedNext(p, start, s, i);
    NoActionAfterAnswer(p, start, r, |s.h.outcomes|);
  }

  lemma PingGrows(p: Setup, s: State, i: Input)
    ensures s.h.outcomes <= FireSlot(p, s, i, 2).h.outcomes
  {
  }

  lemma OutcomesGrow(p: Setup, s: State, i: Input)
    ensures var f := FireSlot(p, s, i, 2);
            s.h.outcomes <= f.h.outcomes && s.h.outcomes <= AfterPoll(p, f, i.poll).h.outcomes
  {
    PingGrows(p, s, i);
    PollEffect(p, FireSlot(p, s, i, 2), i.poll);
  }

  lemma NoActionAfterAnswer(p: Setup, start: U64, s: State, n: nat)
    requires Reached(p, start, s) && n < |s.h.outcomes| && s.h.outcomes[n].Answered?
    ensures forall j :: 0 <= j < |s.h.actions| ==> s.h.actions[j].at != n + 1
  {
    ReachedValid(p, start, 0, s);
    ActionExactlyWhenDue(p, start, s, n + 1);
    assert LossRun(s.h.outcomes[..n + 1]) == 0;
  }

  /** And the same whenever the socket is served: poll reports it readable and no signal stops the loop first. */
  lemma AnsweredAtPoll(p: Setup, start: U64, s: State, i: Input, k: nat)
    requires Reached(p, start, s) && Monotone(s, i) && !s.stopping && i.clock.Some?
    requires i.poll.PollReady? && i.poll.clock.Some? && i.poll.socket.Readable?
    requires i.poll.signal !in {SignalError, SignalRead(Some(2)), SignalRead(Some(15))}
    requires var f := FireFrom(p, At(s, i.clock.value), i, 0);
             !f.stopping && Armed(f.reply) && AnswerWaiting(p, f.h.ticks, i.poll.socket.mail.queue, k)
    ensures var f, r := FireFrom(p, At(s, i.clock.value), i, 0), Iterate(p, s, i);
            Credited(f, r, i.poll.socket.mail.latencyUs) && !r.stopping
  {
    var f := FireFrom(p, At(s, i.clock.value), i, 0);
    PollingReached(p, start, s, i);
    OutstandingTracked(p, start, f);
    PollCredits(p, f, i.poll, k);
  }

  lemma PollCredits(p: Setup, s: State, poll: Poll, k: nat)
    requires !s.stopping && poll.PollReady? && poll.clock.Some? && poll.socket.Readable?
    requires poll.signal !in {SignalError, SignalRead(Some(2)), SignalRead(Some(15))}
    requires Armed(s.reply) && Awaiting(p, s.reply, s.probe, s.h.ticks)
    requires AnswerWaiting(p, s.h.ticks, poll.socket.mail.queue, k)
    ensures var r := AfterPoll(p, s, poll); Credited(s, r, poll.socket.mail.latencyUs) && !r.stopping
  {
    var a := At(s, poll.clock.value);
    assert OnSignal(a, poll.signal) == a;
    assert AfterPoll(p, s, poll) == Drained(p, a, poll.socket.mail);
    AnswerFound(p, a, poll.socket.mail, k);
    DrainCredits(p, a, poll.socket.mail);
  }

  // ---- A healthy target ----

  /** In this iteration the kernel takes the whole probe, and an answer is there when its timer fires. */
  predicate Healthy(p: Setup, s: State, i: Input) {
    && i.kernel == Icmp.Accepted(64)
    && (i.clock.Some? && Due(s.reply, i.clock.value) ==>
          exists k :: 0 <= k < 32 && AnswerWaiting(p, s.h.ticks, i.lastChance.queue, k))
  }

  /** No probe ever timed out or failed to get out. */
  predicate Unharmed(h: History) {
    && (forall k :: 0 <= k < |h.grounds| ==> !h.grounds[k].ByTimeout?)
    && (forall k :: 0 <= k < |h.ticks| ==> h.ticks[k].result != Unreachable)
  }

  lemma HealthyTicks(i: Input, ticks: seq<Tick>, r: State)
    requires OneTick(i, ticks, r) && i.kernel == Icmp.Accepted(64)
    requires forall k :: 0 <= k < |ticks| ==> ticks[k].result != Unreachable
    ensures forall k :: 0 <= k < |r.h.ticks| ==> r.h.ticks[k].result != Unreachable
  {
  }

  lemma HealthyStep(p: Setup, start: U64, s: State, i: Input)
    requires Reached(p, start, s) && Unharmed(s.h) && Healthy(p, s, i)
    ensures Unharmed(Iterate(p, s, i).h)
  {
    if !s.stopping {
      TickAdded(p, s, i);
      HealthyTicks(i, s.h.ticks, Iterate(p, s, i));
    }
    OutstandingTracked(p, start, s);
    IterationContinues(p, i, s);
    var h := Iterate(p, s, i).h;
    forall k | |s.h.grounds| <= k < |h.grounds|
      ensures !h.grounds[k].ByTimeout?
    {
      if h.grounds[k].ByTimeout? {
        TimeoutRecorded(p, s, i, k);
        var m :| 0 <= m < 32 && AnswerWaiting(p, s.h.ticks, i.lastChance.queue, m);
        AnswerFound(p, s, i.lastChance, m);
        assert false;
      }
    }
  }

  lemma {:induction false} HealthyRun(p: Setup, start: U64, inputs: seq<Input>, states: seq<State>, n: nat)
    requires Execution(p, start, inputs, states) && n <= |inputs|
    requires forall k :: 0 <= k < n ==> Healthy(p, states[k], inputs[k])
    ensures Unharmed(states[n].h)
  {
    if n > 0 {
      HealthyRun(p, start, inputs, states, n - 1);
      PassedThrough(p, start, inputs, states, n - 1);
      HealthyStep(p, start, states[n - 1], inputs[n - 1]);
    }
  }

  /** Where nothing timed out and everything got out, every outcome is an answer and nothing was acted on. */
  lemma UnharmedSafe(p: Setup, start: U64, s: State)
    requires Reached(p, start, s) && Unharmed(s.h)
    ensures forall k :: 0 <= k < |s.h.outcomes| ==> s.h.outcomes[k].Answered?
    ensures s.fails == 0 && s.h.actions == []
  {
    forall k | 0 <= k < |s.h.outcomes|
      ensures s.h.outcomes[k].Answered?
    {
      OutcomesEarned(p, start, s, k);
    }
    AnsweredSafe(p, start, s);
  }

  lemma AnsweredSafe(p: Setup, start: U64, s: State)
    requires Reached(p, start, s) && forall k :: 0 <= k < |s.h.outcomes| ==> s.h.outcomes[k].Answered?
    ensures s.fails == 0 && s.h.actions == []
  {
    ReachedValid(p, start, 0, s);
    if s.h.actions != [] {
      ActionExactlyWhenDue(p, start, s, s.h.actions[0].at);
      assert false;
    }
    ActionExactlyWhenDue(p, start, s, 0);
  }

  /**
   * A healthy target is never powered off: in every run in which the kernel takes every probe and
   * each probe's answer is among the first 32 packets when its timer fires at the latest, every
   * outcome is an answer, the failure count is zero and no action is ever run, however late the
   * timers fire.
   */
  lemma HealthyTargetSafe(p: Setup, start: U64, inputs: seq<Input>, states: seq<State>, n: nat)
    requires Execution(p, start, inputs, states) && n <= |inputs|
    requires forall k :: 0 <= k < n ==> Healthy(p, states[k], inputs[k])
    ensures forall k :: 0 <= k < |states[n].h.outcomes| ==> states[n].h.outcomes[k].Answered?
    ensures states[n].fails == 0 && states[n].h.actions == []
  {
    HealthyRun(p, start, inputs, states, n);
    PassedThrough(p, start, inputs, states, n);
    UnharmedSafe(p, start, states[n]);
  }
}

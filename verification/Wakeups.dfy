/** From the operating system's promptness alone to punctual timers and timely detection. */
module Wakeups {
  import opened Base
  import opened Timers
  import opened Monitor
  import opened Runs
  import opened Schedule
  import opened Guarantees
  import Detection

  /** When the loop, having taken step k - 1, should next read the clock: when its poll times out. */
  function WakeBy(p: Setup, start: U64, inputs: seq<Input>, states: seq<State>, k: nat): int
    requires |states| == |inputs| + 1 && k <= |inputs|
  {
    if k == 0 || inputs[k - 1].clock.None? then start
    else
      var polling := FireFrom(p, At(states[k - 1], inputs[k - 1].clock.value), inputs[k - 1], 0);
      polling.now + PollTimeout(polling)
  }

  /** A running loop reads the clock at most `late` after it should wake. */
  predicate PromptReading(p: Setup, start: U64, inputs: seq<Input>, states: seq<State>, k: nat,
                          clock: Option<U64>, late: nat)
    requires |states| == |inputs| + 1 && k <= |inputs|
  {
    !states[k].stopping && clock.Some? ==> clock.value <= WakeBy(p, start, inputs, states, k) + late
  }

  /** Poll sleeps no longer than it was told, and no turn of the loop adds more than `late`. */
  predicate Prompt(p: Setup, start: U64, inputs: seq<Input>, states: seq<State>, late: nat)
    requires |states| == |inputs| + 1
  {
    forall k :: 0 <= k < |inputs| ==> PromptReading(p, start, inputs, states, k, inputs[k].clock, late)
  }

  /** A prompt reading after one more iteration is in time for every armed timer. */
  lemma WakeInTime(p: Setup, s: State, i: Input, t: U64, late: nat)
    requires ValidSetup(p) && LiveDeadlines(p, s) && !s.stopping && !Iterate(p, s, i).stopping
    requires i.clock.Some? && s.now <= i.clock.value < CLOCK_LIMIT
    requires var f := FireFrom(p, At(s, i.clock.value), i, 0); t <= f.now + PollTimeout(f) + late
    ensures InTimeAll(Iterate(p, s, i), Some(t), late)
  {
    var a := At(s, i.clock.value);
    var f := FireFrom(p, a, i, 0);
    assert !f.stopping && Iterate(p, s, i) == AfterPoll(p, f, i.poll);
    PassClears(p, a, i);
    PollKeepsDeadlines(p, f, i.poll);
    SleepWithinDeadlines(f);
  }

  /** With nothing overdue, a full sleep ends no later than any armed deadline. */
  lemma SleepWithinDeadlines(s: State)
    requires Armed(s.ping) && s.ping >= s.now && s.watchdog >= s.now && (Armed(s.reply) ==> s.reply > s.now)
    ensures s.now + PollTimeout(s) <= s.ping
    ensures s.now + PollTimeout(s) <= s.watchdog
    ensures Armed(s.reply) ==> s.now + PollTimeout(s) <= s.reply
  {
  }

  lemma StartInTime(p: Setup, start: U64, t: U64, late: nat)
    requires ValidSetup(p) && start < CLOCK_LIMIT && t <= start + late
    ensures InTimeAll(Start(p, start), Some(t), late)
  {
  }

  lemma PromptNext(p: Setup, start: U64, inputs: seq<Input>, states: seq<State>, k: nat, t: U64, late: nat)
    requires Execution(p, start, inputs, states) && k <= |inputs|
    requires PromptReading(p, start, inputs, states, k, Some(t), late)
    ensures InTimeAll(states[k], Some(t), late)
  {
    if k == 0 {
      StartInTime(p, start, t, late);
    } else if !states[k].stopping {
      PassedThrough(p, start, inputs, states, k - 1);
      AlwaysLive(p, start, states[k - 1]);
      WakeInTime(p, states[k - 1], inputs[k - 1], t, late);
    }
  }

  /** s is reached by an execution prompt up to `late`, and the loop should next read the clock at `wake`. */
  ghost predicate ReachedPromptly(p: Setup, start: U64, late: nat, s: State, wake: int) {
    exists inputs, states ::
      && Execution(p, start, inputs, states) && Prompt(p, start, inputs, states, late)
      && states[|inputs|] == s && WakeBy(p, start, inputs, states, |inputs|) == wake
  }

  lemma PromptExecution(p: Setup, start: U64, inputs: seq<Input>, states: seq<State>, late: nat)
    requires Execution(p, start, inputs, states) && Prompt(p, start, inputs, states, late)
    ensures Punctual(inputs, states, late)
  {
    forall k | 0 <= k < |inputs|
      ensures InTimeAll(states[k], inputs[k].clock, late)
    {
      if inputs[k].clock.Some? {
        assert PromptReading(p, start, inputs, states, k, inputs[k].clock, late);
        PromptNext(p, start, inputs, states, k, inputs[k].clock.value, late);
      }
    }
  }

  /**
   * If the system is prompt up to `late`, every timer fires at most `late` after its deadline, and
   * the next prompt reading t is in time for every armed timer.
   */
  lemma PromptIsPunctual(p: Setup, start: U64, late: nat, s: State, wake: int, t: U64)
    requires ReachedPromptly(p, start, late, s, wake) && t <= wake + late
    ensures ReachedWithin(p, start, late, s) && InTimeAll(s, Some(t), late)
  {
    var inputs, states :|
      && Execution(p, start, inputs, states) && Prompt(p, start, inputs, states, late)
      && states[|inputs|] == s && WakeBy(p, start, inputs, states, |inputs|) == wake;
    PromptExecution(p, start, inputs, states, late);
    PromptNext(p, start, inputs, states, |inputs|, t, late);
  }

  /**
   * Detection end to end: on a system prompt up to `late`, with late + timeout <= interval, an
   * outage that begins with any tick n is acted on by the detection bound, and until then the
   * loop's next prompt reading is not past it; every action keeps the bound of its loss.
   */
  lemma PromptDetection(p: Setup, start: U64, late: nat, s: State, wake: int, n: nat, t: U64)
    requires ReachedPromptly(p, start, late, s, wake) && t <= wake + late
    requires late + p.config.timeoutMs <= p.config.intervalMs && Detection.Outage(s.h, n)
    ensures p.config.threshold > 0 && Detection.HandledInTime(p, start, late, s, n, t)
    ensures InTimeAll(s, Some(t), late) && Detection.AsAdvertised(p, start, late, s.h.actions, n)
    ensures forall k :: 0 <= k < |s.h.actions| ==> Detection.ActedInTime(p, start, late, s.h.actions[k])
  {
    PromptIsPunctual(p, start, late, s, wake, t);
    Detection.AlwaysInTime(p, start, late, s, t);
    Detection.OutageActedOn(p, start, late, s, n, t);
  }
}

/** Whole runs: an induction principle over the loop, for any property its callbacks preserve. */
module Runs {
  import opened Base
  import opened Timers
  import opened Monitor

  /** A reading comes at most `late` milliseconds after a deadline that is still armed. */
  predicate InTime(deadline: U64, now: U64, late: nat) {
    Armed(deadline) ==> now <= deadline + late
  }

  /** The next reading of a running loop is in time for every armed timer. */
  predicate InTimeAll(s: State, clock: Option<U64>, late: nat) {
    !s.stopping && clock.Some? ==>
      && InTime(s.watchdog, clock.value, late)
      && InTime(s.reply, clock.value, late)
      && InTime(s.ping, clock.value, late)
  }

  /** The loop passes through `states` on `inputs`, in an environment whose clock never goes back. */
  ghost predicate Execution(p: Setup, start: U64, inputs: seq<Input>, states: seq<State>) {
    && ValidSetup(p) && start < CLOCK_LIMIT
    && |states| == |inputs| + 1 && states[0] == Start(p, start)
    && forall k :: 0 <= k < |inputs| ==>
         Monotone(states[k], inputs[k]) && states[k + 1] == Iterate(p, states[k], inputs[k])
  }

  /** Every timer that fires does so at most `late` milliseconds after its deadline. */
  predicate Punctual(inputs: seq<Input>, states: seq<State>, late: nat)
    requires |states| == |inputs| + 1
  {
    forall k :: 0 <= k < |inputs| ==> InTimeAll(states[k], inputs[k].clock, late)
  }

  /** s is the state after some execution, whatever the environment answered. */
  ghost predicate Reached(p: Setup, start: U64, s: State) {
    exists inputs, states :: Execution(p, start, inputs, states) && states[|inputs|] == s
  }

  /** s is the state after some execution that was punctual up to `late`. */
  ghost predicate ReachedWithin(p: Setup, start: U64, late: nat, s: State) {
    exists inputs, states ::
      Execution(p, start, inputs, states) && Punctual(inputs, states, late) && states[|inputs|] == s
  }

  /** No reading is more than 2^64 - 1 milliseconds late, so every execution is punctual for that bound. */
  lemma ReachedAnyhow(p: Setup, start: U64, s: State)
    requires Reached(p, start, s)
    ensures ReachedWithin(p, start, U64_MAX, s)
  {
    var inputs, states :| Execution(p, start, inputs, states) && states[|inputs|] == s;
    assert Punctual(inputs, states, U64_MAX);
  }

  lemma ReachedOnTime(p: Setup, start: U64, late: nat, s: State)
    requires ReachedWithin(p, start, late, s)
    ensures Reached(p, start, s)
  {
  }

  predicate Fires(s: State, deadline: U64, late: nat) {
    !s.stopping && Due(deadline, s.now) && s.now <= deadline + late
  }

  /** Stops that no callback of the monitor decides by itself. */
  predicate External(c: Cause) {
    c == ClockFailed || c == PollFailed || c == SignalChannelBroken || c == Signalled
  }

  function ExitFor(c: Cause): int {
    if c == Signalled || c == ActionDone then EXIT_SUCCESS else EXIT_FAILURE
  }

  /** P survives the clock moving on, every callback in the situations the loop calls it in, and outside stops. */
  ghost predicate Preserved(p: Setup, late: nat, P: State -> bool) {
    && (forall s: State, t: U64 :: P(s) && s.now <= t < CLOCK_LIMIT ==> P(At(s, t)))
    && (forall s: State :: P(s) && Fires(s, s.watchdog, late) ==> P(OnWatchdog(p, s)))
    && (forall s: State, i: Input :: P(s) && Fires(s, s.reply, late) ==> P(OnReply(p, s, i)))
    && (forall s: State, i: Input ::
          P(s) && Fires(s, s.ping, late) && (Armed(s.reply) ==> s.now < s.reply) ==> P(OnPing(p, s, i)))
    && (forall s: State, mail: Mail :: P(s) && !s.stopping ==> P(Drained(p, s, mail)))
    && (forall s: State, c: Cause :: P(s) && !s.stopping && External(c) ==> P(Halt(s, ExitFor(c), c)))
  }

  /** The slots fire in order: when the ping callback runs, a reply timer still armed is not yet due. */
  lemma TimersPreserve(p: Setup, late: nat, P: State -> bool, s: State, i: Input)
    requires Preserved(p, late, P) && P(s) && !s.stopping
    requires InTime(s.watchdog, s.now, late) && InTime(s.reply, s.now, late) && InTime(s.ping, s.now, late)
    ensures P(FireFrom(p, s, i, 0))
  {
    var s1 := FireSlot(p, s, i, 0);
    assert P(s1) && s1.now == s.now && s1.reply == s.reply && s1.ping == s.ping && !s1.stopping;
    var s2 := FireSlot(p, s1, i, 1);
    assert P(s2) && s2.now == s.now && s2.ping == s.ping;
    assert !s2.stopping && Armed(s2.reply) ==> s2.now < s2.reply;
    assert FireFrom(p, s, i, 0) == FireFrom(p, s1, i, 1) == FireFrom(p, s2, i, 2);
  }

  lemma PollPreserves(p: Setup, late: nat, P: State -> bool, s: State, poll: Poll)
    requires Preserved(p, late, P) && P(s) && !s.stopping
    requires poll.PollReady? ==> Reading(s.now, poll.clock)
    ensures P(AfterPoll(p, s, poll))
  {
    assert P(Halt(s, ExitFor(PollFailed), PollFailed)) && P(Halt(s, ExitFor(ClockFailed), ClockFailed));
    if poll.PollReady? && poll.clock.Some? {
      var r := At(s, poll.clock.value);
      assert P(r);
      assert P(Halt(r, ExitFor(SignalChannelBroken), SignalChannelBroken));
      assert P(Halt(r, ExitFor(Signalled), Signalled));
    }
  }

  lemma IterationPreserves(p: Setup, late: nat, P: State -> bool, s: State, i: Input)
    requires Preserved(p, late, P) && P(s) && Monotone(s, i) && InTimeAll(s, i.clock, late)
    ensures P(Iterate(p, s, i))
  {
    if !s.stopping {
      if i.clock.None? {
        assert P(Halt(s, ExitFor(ClockFailed), ClockFailed));
      } else {
        var r := At(s, i.clock.value);
        assert P(r);
        TimersPreserve(p, late, P, r, i);
        var fired := FireFrom(p, r, i, 0);
        if !fired.stopping {
          PollPreserves(p, late, P, fired, i.poll);
        }
      }
    }
  }

  lemma {:induction false} ExecutionPreserves(p: Setup, start: U64, inputs: seq<Input>, states: seq<State>,
                                              late: nat, P: State -> bool, k: nat)
    requires Execution(p, start, inputs, states) && Punctual(inputs, states, late) && k <= |inputs|
    requires Preserved(p, late, P) && P(Start(p, start))
    ensures P(states[k])
  {
    if k > 0 {
      ExecutionPreserves(p, start, inputs, states, late, P, k - 1);
      IterationPreserves(p, late, P, states[k - 1], inputs[k - 1]);
    }
  }

  /** A preserved property that holds at the start holds in every state a punctual execution reaches. */
  lemma ReachedPreserves(p: Setup, start: U64, late: nat, s: State, P: State -> bool)
    requires ReachedWithin(p, start, late, s) && Preserved(p, late, P) && P(Start(p, start))
    ensures P(s)
  {
    var inputs, states :|
      Execution(p, start, inputs, states) && Punctual(inputs, states, late) && states[|inputs|] == s;
    ExecutionPreserves(p, start, inputs, states, late, P, |inputs|);
  }

  lemma ReachedValid(p: Setup, start: U64, late: nat, s: State)
    requires Reached(p, start, s) || ReachedWithin(p, start, late, s)
    ensures ValidSetup(p) && start < CLOCK_LIMIT
  {
  }

  lemma StartReached(p: Setup, start: U64)
    requires ValidSetup(p) && start < CLOCK_LIMIT
    ensures Reached(p, start, Start(p, start))
  {
    assert Execution(p, start, [], [Start(p, start)]);
  }

  lemma ExecutionNext(p: Setup, start: U64, inputs: seq<Input>, states: seq<State>, i: Input, r: State)
    requires Execution(p, start, inputs, states) && Monotone(states[|inputs|], i)
    requires r == Iterate(p, states[|inputs|], i)
    ensures Execution(p, start, inputs + [i], states + [r])
  {
    var js, us := inputs + [i], states + [r];
    forall k | 0 <= k < |js|
      ensures Monotone(us[k], js[k]) && us[k + 1] == Iterate(p, us[k], js[k])
    {
      if k < |inputs| {
        assert us[k] == states[k] && us[k + 1] == states[k + 1] && js[k] == inputs[k];
      }
    }
  }

  lemma PunctualNext(inputs: seq<Input>, states: seq<State>, late: nat, i: Input, r: State)
    requires |states| == |inputs| + 1 && Punctual(inputs, states, late)
    requires InTimeAll(states[|inputs|], i.clock, late)
    ensures Punctual(inputs + [i], states + [r], late)
  {
    var js, us := inputs + [i], states + [r];
    forall k | 0 <= k < |js|
      ensures InTimeAll(us[k], js[k].clock, late)
    {
      if k < |inputs| {
        assert us[k] == states[k] && js[k] == inputs[k];
      }
    }
  }

  lemma ReachedNext(p: Setup, start: U64, s: State, i: Input)
    requires Reached(p, start, s) && Monotone(s, i)
    ensures Reached(p, start, Iterate(p, s, i))
  {
    var inputs, states :| Execution(p, start, inputs, states) && states[|inputs|] == s;
    var r := Iterate(p, s, i);
    ExecutionNext(p, start, inputs, states, i, r);
    assert (states + [r])[|inputs + [i]|] == r;
  }

  lemma ReachedWithinNext(p: Setup, start: U64, late: nat, s: State, i: Input)
    requires ReachedWithin(p, start, late, s) && Monotone(s, i) && InTimeAll(s, i.clock, late)
    ensures ReachedWithin(p, start, late, Iterate(p, s, i))
  {
    var inputs, states :|
      Execution(p, start, inputs, states) && Punctual(inputs, states, late) && states[|inputs|] == s;
    var r := Iterate(p, s, i);
    ExecutionNext(p, start, inputs, states, i, r);
    PunctualNext(inputs, states, late, i, r);
    assert (states + [r])[|inputs + [i]|] == r;
  }

  /** Every state an execution passes through is reached. */
  lemma {:induction false} PassedThrough(p: Setup, start: U64, inputs: seq<Input>, states: seq<State>, k: nat)
    requires Execution(p, start, inputs, states) && k <= |inputs|
    ensures Reached(p, start, states[k])
  {
    if k == 0 {
      StartReached(p, start);
    } else {
      PassedThrough(p, start, inputs, states, k - 1);
      ReachedNext(p, start, states[k - 1], inputs[k - 1]);
    }
  }

  /** The state after a run on legal inputs is reached. */
  lemma {:induction false} RunReached(p: Setup, start: U64, inputs: seq<Input>)
    requires Legal(p, start, inputs)
    ensures Reached(p, start, Run(p, start, inputs))
  {
    if inputs == [] {
      StartReached(p, start);
    } else {
      var before := inputs[..|inputs| - 1];
      RunReached(p, start, before);
      ReachedNext(p, start, Run(p, start, before), inputs[|inputs| - 1]);
    }
  }

  /** A stopped run ignores every further input. */
  lemma {:induction false} StoppedRun(p: Setup, start: U64, inputs: seq<Input>, more: seq<Input>)
    requires Run(p, start, inputs).stopping
    ensures Run(p, start, inputs + more) == Run(p, start, inputs)
    decreases |more|
  {
    if more == [] {
      assert inputs + more == inputs;
    } else {
      var n := |inputs| + |more|;
      assert (inputs + more)[..n - 1] == inputs + more[..|more| - 1];
      StoppedRun(p, start, inputs, more[..|more| - 1]);
    }
  }
}

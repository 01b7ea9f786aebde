/** The kernel filter in front of a whole run. */
module Filtering {
  import opened Base
  import opened Timers
  import opened Monitor
  import opened Runs
  import opened Iterations
  import Drain

  function FilterMail(p: Setup, mail: Mail): Mail {
    mail.(queue := Drain.Filtered(p.dest.family, mail.queue))
  }

  function FilterSocket(p: Setup, e: SocketEvent): SocketEvent {
    match e case Readable(mail) => Readable(FilterMail(p, mail)) case _ => e
  }

  function FilterPoll(p: Setup, poll: Poll): Poll {
    if poll.PollReady? then poll.(socket := FilterSocket(p, poll.socket)) else poll
  }

  /** The same iteration with the filter attached to the socket. */
  function FilterInput(p: Setup, i: Input): Input {
    i.(lastChance := FilterMail(p, i.lastChance), poll := FilterPoll(p, i.poll))
  }

  function FilterAll(p: Setup, inputs: seq<Input>): (r: seq<Input>)
    ensures |r| == |inputs| && forall k :: 0 <= k < |inputs| ==> r[k] == FilterInput(p, inputs[k])
  {
    seq(|inputs|, k requires 0 <= k < |inputs| => FilterInput(p, inputs[k]))
  }

  // ---- One drain ----

  /** The filter does not bring the first decisive arrival from behind the 32-packet budget to inside it. */
  predicate Unmoved(p: Setup, s: State, mail: Mail) {
    var x, outstanding := Awaited(p, s), Armed(s.reply);
    !(&& 32 <= Drain.First(x, outstanding, mail.queue) < |mail.queue|
      && Drain.First(x, outstanding, FilterMail(p, mail).queue) < 32)
  }

  lemma DrainUnchanged(p: Setup, s: State, mail: Mail)
    ensures VerdictOn(p, s, FilterMail(p, mail)) == VerdictOn(p, s, mail) <==> Unmoved(p, s, mail)
    ensures Unmoved(p, s, mail) ==> Drained(p, s, FilterMail(p, mail)) == Drained(p, s, mail)
    ensures !Unmoved(p, s, mail) ==>
              VerdictOn(p, s, mail).NoMatch? && !VerdictOn(p, s, FilterMail(p, mail)).NoMatch?
    ensures |mail.queue| <= 32 ==> Unmoved(p, s, mail)
  {
    Drain.FilterTransparent(Awaited(p, s), Armed(s.reply), mail.queue);
  }

  // ---- One iteration ----

  /** No drain that runs in this iteration is moved by the filter. */
  predicate Neutral(p: Setup, s: State, i: Input) {
    !s.stopping && i.clock.Some? ==>
      && (Due(s.reply, i.clock.value) ==> Unmoved(p, s, i.lastChance))
      && var polling := FireFrom(p, At(s, i.clock.value), i, 0);
      (Drains(polling, i.poll) ==> Unmoved(p, polling, i.poll.socket.mail))
  }

  /** No wakeup finds more packets than one drain takes. */
  predicate ShortQueues(i: Input) {
    && |i.lastChance.queue| <= 32
    && (i.poll.PollReady? && i.poll.socket.Readable? ==> |i.poll.socket.mail.queue| <= 32)
  }

  lemma ShortIsNeutral(p: Setup, s: State, i: Input)
    requires ShortQueues(i)
    ensures Neutral(p, s, i)
  {
    if !s.stopping && i.clock.Some? {
      DrainUnchanged(p, s, i.lastChance);
      var polling := FireFrom(p, At(s, i.clock.value), i, 0);
      if Drains(polling, i.poll) {
        DrainUnchanged(p, polling, i.poll.socket.mail);
      }
    }
  }

  predicate TimedOutAt(h: History, n: nat) {
    n < |h.grounds| && h.grounds[n].ByTimeout?
  }

  /** The reply callback does the same, or records a loss where the filtered drain finds something. */
  lemma ReplyUnchanged(p: Setup, s: State, i: Input)
    requires !s.stopping
    ensures var r, f, n := OnReply(p, s, i), OnReply(p, s, FilterInput(p, i)), |s.h.grounds|;
            if Unmoved(p, s, i.lastChance) then f == r
            else TimedOutAt(r.h, n) && !TimedOutAt(f.h, n) && (|f.h.grounds| > n || f.stopping)
  {
    var fired := s.(h := s.h.(timeouts := s.h.timeouts + [s.now]));
    DrainUnchanged(p, s, i.lastChance);
    DrainUnchanged(p, fired, i.lastChance);
    assert VerdictOn(p, fired, i.lastChance) == VerdictOn(p, s, i.lastChance);
  }

  lemma PollUnchanged(p: Setup, s: State, poll: Poll)
    requires !s.stopping
    ensures AfterPoll(p, s, FilterPoll(p, poll)) == AfterPoll(p, s, poll)
            <==> (Drains(s, poll) ==> Unmoved(p, s, poll.socket.mail))
  {
    if poll.PollReady? && poll.clock.Some? && poll.socket.Readable? {
      var a, mail := At(s, poll.clock.value), poll.socket.mail;
      DrainUnchanged(p, a, mail);
      assert Unmoved(p, a, mail) == Unmoved(p, s, mail);
      if Drains(s, poll) {
        assert OnSignal(a, poll.signal) == a;
        assert AfterPoll(p, s, poll) == Drained(p, a, mail);
        assert AfterPoll(p, s, FilterPoll(p, poll)) == Drained(p, a, FilterMail(p, mail));
        DrainDiffers(p, a, mail);
      }
    }
  }

  lemma DrainDiffers(p: Setup, s: State, mail: Mail)
    requires !s.stopping
    ensures !Unmoved(p, s, mail) ==> Drained(p, s, FilterMail(p, mail)) != Drained(p, s, mail)
  {
    DrainUnchanged(p, s, mail);
  }

  /** What is left of an iteration after the reply slot. */
  function Rest(p: Setup, s: State, i: Input): State {
    if s.stopping then s
    else
      var f := FireSlot(p, s, i, 2);
      if f.stopping then f else AfterPoll(p, f, i.poll)
  }

  lemma RestKeeps(p: Setup, s: State, i: Input, n: nat)
    requires n < |s.h.grounds| || s.stopping
    ensures TimedOutAt(Rest(p, s, i).h, n) == TimedOutAt(s.h, n)
  {
    AfterReplySlot(p, s, i);
  }

  lemma PingUnchanged(p: Setup, s: State, i: Input)
    ensures FireSlot(p, s, FilterInput(p, i), 2) == FireSlot(p, s, i, 2)
  {
  }

  lemma IterationBySlots(p: Setup, s: State, i: Input)
    requires !s.stopping && i.clock.Some?
    ensures var a := At(s, i.clock.value);
            Iterate(p, s, i) == Rest(p, FireSlot(p, FireSlot(p, a, i, 0), i, 1), i)
  {
    Slots(p, At(s, i.clock.value), i);
  }

  /** After a reply slot that the filter did not change, the iterations agree exactly if the socket's drains do. */
  lemma RestUnchanged(p: Setup, s: State, i: Input)
    requires !s.stopping
    ensures Rest(p, s, FilterInput(p, i)) == Rest(p, s, i)
            <==> var polling := FireSlot(p, s, i, 2);
                 (Drains(polling, i.poll) ==> Unmoved(p, polling, i.poll.socket.mail))
  {
    PingUnchanged(p, s, i);
    var f := FireSlot(p, s, i, 2);
    if !f.stopping {
      PollUnchanged(p, f, i.poll);
    }
  }

  /** An iteration goes the same way behind the filter exactly when no drain that runs in it is moved. */
  lemma IterationUnchanged(p: Setup, s: State, i: Input)
    ensures Iterate(p, s, FilterInput(p, i)) == Iterate(p, s, i) <==> Neutral(p, s, i)
  {
    if !s.stopping && i.clock.Some? {
      var a, g := At(s, i.clock.value), FilterInput(p, i);
      var s1 := FireSlot(p, a, i, 0);
      var r, f := FireSlot(p, s1, i, 1), FireSlot(p, s1, g, 1);
      IterationBySlots(p, s, i);
      IterationBySlots(p, s, g);
      Slots(p, a, i);
      ReplyUnchanged(p, s1, i);
      assert Unmoved(p, s1, i.lastChance) == Unmoved(p, s, i.lastChance);
      if Due(s.reply, i.clock.value) && !Unmoved(p, s, i.lastChance) {
        RestKeeps(p, r, i, |s.h.grounds|);
        RestKeeps(p, f, g, |s.h.grounds|);
      } else if !r.stopping {
        RestUnchanged(p, r, i);
      }
    }
  }

  // ---- Whole runs ----

  /** On either input the loop takes the same step. */
  predicate SameStep(p: Setup, s: State, i: Input, j: Input) {
    Iterate(p, s, i) == Iterate(p, s, j) && Monotone(s, i) == Monotone(s, j)
  }

  lemma StepUnchanged(p: Setup, s: State, i: Input)
    ensures SameStep(p, s, FilterInput(p, i), i) <==> Neutral(p, s, i)
  {
    IterationUnchanged(p, s, i);
  }

  lemma SameExecution(p: Setup, start: U64, inputs: seq<Input>, others: seq<Input>, states: seq<State>)
    requires |states| == |inputs| + 1 && |others| == |inputs|
    requires Execution(p, start, inputs, states)
    ensures Execution(p, start, others, states)
            <==> forall k :: 0 <= k < |inputs| ==> SameStep(p, states[k], others[k], inputs[k])
  {
    if Execution(p, start, others, states) {
      forall k | 0 <= k < |inputs|
        ensures SameStep(p, states[k], others[k], inputs[k])
      {
        assert states[k + 1] == Iterate(p, states[k], others[k]);
        assert states[k + 1] == Iterate(p, states[k], inputs[k]);
      }
    }
    if forall k :: 0 <= k < |inputs| ==> SameStep(p, states[k], others[k], inputs[k]) {
      forall k | 0 <= k < |others|
        ensures Monotone(states[k], others[k]) && states[k + 1] == Iterate(p, states[k], others[k])
      {
        assert SameStep(p, states[k], others[k], inputs[k]);
      }
    }
  }

  /**
   * Filtering is invisible exactly as long as it moves no drain: an execution passes through the
   * same states behind the filter exactly when no drain in it is moved, and with no drain moved an
   * execution behind the filter is one without it. Queues of at most 32 packets are never moved.
   */
  lemma FilterInvisible(p: Setup, start: U64, inputs: seq<Input>, states: seq<State>)
    requires |states| == |inputs| + 1
    ensures Execution(p, start, inputs, states) ==>
              (Execution(p, start, FilterAll(p, inputs), states)
               <==> forall k :: 0 <= k < |inputs| ==> Neutral(p, states[k], inputs[k]))
    ensures Execution(p, start, FilterAll(p, inputs), states) ==>
              (Execution(p, start, inputs, states)
               <==> forall k :: 0 <= k < |inputs| ==> Neutral(p, states[k], inputs[k]))
    ensures forall k :: 0 <= k < |inputs| && ShortQueues(inputs[k]) ==> Neutral(p, states[k], inputs[k])
  {
    var fs := FilterAll(p, inputs);
    forall k | 0 <= k < |inputs|
      ensures SameStep(p, states[k], fs[k], inputs[k]) <==> Neutral(p, states[k], inputs[k])
      ensures SameStep(p, states[k], inputs[k], fs[k]) <==> Neutral(p, states[k], inputs[k])
      ensures ShortQueues(inputs[k]) ==> Neutral(p, states[k], inputs[k])
    {
      StepUnchanged(p, states[k], inputs[k]);
      if ShortQueues(inputs[k]) {
        ShortIsNeutral(p, states[k], inputs[k]);
      }
    }
    if Execution(p, start, inputs, states) {
      SameExecution(p, start, inputs, fs, states);
    }
    if Execution(p, start, fs, states) {
      SameExecution(p, start, fs, inputs, states);
    }
  }
}

/** Every recorded outcome rests on something that happened. */
module Evidence {
  import opened Base
  import opened Timers
  import opened Monitor
  import opened Runs
  import opened Ledger
  import Drain
  import Icmp
  import Stats

  /** The sequence number the probe of tick j carried. */
  function SequenceOf(ticks: seq<Tick>, j: nat): U16
    requires j < |ticks|
  {
    Icmp.SequenceAfter(Advances(ticks[..j + 1]))
  }

  /**
   * A success rests on a packet from the target that answers the very probe it is credited to; a
   * loss on a probe whose full timeout had passed, or on one the kernel would not send.
   */
  predicate Earned(p: Setup, ticks: seq<Tick>, x: Stats.Sample, j: nat, g: Ground) {
    && j < |ticks|
    && match g
       case ByReply(from, seen) =>
         && x.Answered? && ticks[j].result == Sent && from == p.dest
         && Icmp.Delivers(p.dest.family, seen, p.id, SequenceOf(ticks, j))
       case ByTimeout(at) =>
         x.Lost? && ticks[j].result == Sent && at >= ticks[j].fired + p.config.timeoutMs
       case BySend =>
         x.Lost? && ticks[j].result == Unreachable
  }

  predicate AllEarned(p: Setup, ticks: seq<Tick>, outcomes: seq<Stats.Sample>, resolved: seq<nat>,
                      grounds: seq<Ground>) {
    && |outcomes| == |resolved| == |grounds|
    && forall k :: 0 <= k < |outcomes| ==> Earned(p, ticks, outcomes[k], resolved[k], grounds[k])
  }

  /** While a probe is outstanding, the reply timer and the expected sequence are those of the last send. */
  predicate Awaiting(p: Setup, reply: U64, probe: U16, ticks: seq<Tick>) {
    Armed(reply) ==>
      && ticks != []
      && var j := LastSend(ticks);
      && ticks[j].result == Sent
      && reply == ticks[j].fired + p.config.timeoutMs
      && probe == SequenceOf(ticks, j)
  }

  predicate Grounded(p: Setup, s: State) {
    && s.now < CLOCK_LIMIT
    && s.sequence == Icmp.SequenceAfter(Advances(s.h.ticks))
    && Awaiting(p, s.reply, s.probe, s.h.ticks)
    && AllEarned(p, s.h.ticks, s.h.outcomes, s.h.resolved, s.h.grounds)
  }

  // ---- Preservation ----

  lemma EarnedByTick(p: Setup, ticks: seq<Tick>, t: Tick, x: Stats.Sample, j: nat, g: Ground)
    requires Earned(p, ticks, x, j, g)
    ensures Earned(p, ticks + [t], x, j, g)
  {
    assert (ticks + [t])[..j + 1] == ticks[..j + 1];
  }

  lemma AllEarnedByTick(p: Setup, h: History, t: Tick)
    requires AllEarned(p, h.ticks, h.outcomes, h.resolved, h.grounds)
    ensures AllEarned(p, h.ticks + [t], h.outcomes, h.resolved, h.grounds)
  {
    forall k | 0 <= k < |h.outcomes|
      ensures Earned(p, h.ticks + [t], h.outcomes[k], h.resolved[k], h.grounds[k])
    {
      EarnedByTick(p, h.ticks, t, h.outcomes[k], h.resolved[k], h.grounds[k]);
    }
  }

  lemma SequenceByTick(p: Setup, s: State, result: TickResult)
    requires Grounded(p, s)
    ensures var u := Ticked(p, s, result);
            && u.sequence == Icmp.SequenceAfter(Advances(u.h.ticks))
            && (result != Skipped ==>
                  LastSend(u.h.ticks) == |s.h.ticks| && SequenceOf(u.h.ticks, |s.h.ticks|) == u.sequence)
  {
    var t := Tick(s.ping, s.now, result);
    var ticks := s.h.ticks + [t];
    AppendTick(s.h.ticks, t);
    assert ticks[..|s.h.ticks| + 1] == ticks;
  }

  lemma AwaitingBySkip(p: Setup, reply: U64, probe: U16, ticks: seq<Tick>, t: Tick)
    requires Awaiting(p, reply, probe, ticks) && t.result == Skipped
    ensures Awaiting(p, reply, probe, ticks + [t])
  {
    AppendTick(ticks, t);
    if Armed(reply) {
      var j := LastSend(ticks);
      assert (ticks + [t])[..j + 1] == ticks[..j + 1];
    }
  }

  lemma RecordEarned(p: Setup, s: State, x: Stats.Sample, g: Ground, accepted: bool)
    requires Grounded(p, s) && !Armed(s.reply) && Earned(p, s.h.ticks, x, LastSend(s.h.ticks), g)
    ensures var r := Record(Because(s, g), x); Grounded(p, r) && Grounded(p, CheckThreshold(p, r, accepted))
  {
  }

  lemma GroundedByDrain(p: Setup, s: State, mail: Mail)
    requires Grounded(p, s)
    ensures Grounded(p, Drained(p, s, mail))
  {
    match VerdictOn(p, s, mail)
    case NoMatch =>
    case Fatal =>
    case Found(from, seen) =>
      var k := Drain.First(Awaited(p, s), Armed(s.reply), mail.queue);
      assert Drain.Decisive(Awaited(p, s), Armed(s.reply), mail.queue[k]);
      Icmp.MatchExactly(seen, p.dest.family, p.id, s.probe);
      RecordEarned(p, ResetProbe(s), Stats.Answered(mail.latencyUs), ByReply(from, seen), false);
  }

  lemma GroundedByReply(p: Setup, s: State, i: Input)
    requires Grounded(p, s) && !s.stopping && Due(s.reply, s.now)
    ensures Grounded(p, OnReply(p, s, i))
  {
    var fired := s.(h := s.h.(timeouts := s.h.timeouts + [s.now]));
    GroundedByDrain(p, fired, i.lastChance);
    if VerdictOn(p, fired, i.lastChance).NoMatch? {
      RecordEarned(p, ResetProbe(fired), Stats.Lost, ByTimeout(s.now), i.replyAccepted);
    }
  }

  lemma GroundedByPing(p: Setup, s: State, i: Input)
    requires ValidSetup(p) && Grounded(p, s) && !s.stopping
    ensures Grounded(p, OnPing(p, s, i))
  {
    var result := TickResultOf(s, Icmp.StatusOf(i.kernel, PACKET_SIZE));
    SequenceByTick(p, s, result);
    if result == Skipped {
      AwaitingBySkip(p, s.reply, s.probe, s.h.ticks, Tick(s.ping, s.now, result));
    }
    AllEarnedByTick(p, s.h, Tick(s.ping, s.now, result));
    if result == Unreachable {
      RecordEarned(p, Ticked(p, s, result), Stats.Lost, BySend, i.sendAccepted);
    }
  }

  ghost function GroundedFor(p: Setup): State -> bool {
    s => Grounded(p, s)
  }

  lemma GroundedPreserved(p: Setup, late: nat)
    requires ValidSetup(p)
    ensures Preserved(p, late, GroundedFor(p))
  {
    forall s: State, i: Input | Grounded(p, s) && Fires(s, s.reply, late)
      ensures Grounded(p, OnReply(p, s, i))
    {
      GroundedByReply(p, s, i);
    }
    forall s: State, i: Input | Grounded(p, s) && Fires(s, s.ping, late)
      ensures Grounded(p, OnPing(p, s, i))
    {
      GroundedByPing(p, s, i);
    }
    forall s: State, mail: Mail | Grounded(p, s)
      ensures Grounded(p, Drained(p, s, mail))
    {
      GroundedByDrain(p, s, mail);
    }
  }

  lemma ReachedGrounded(p: Setup, start: U64, s: State)
    requires Reached(p, start, s)
    ensures Grounded(p, s)
  {
    ReachedValid(p, start, 0, s);
    ReachedAnyhow(p, start, s);
    GroundedPreserved(p, U64_MAX);
    ReachedPreserves(p, start, U64_MAX, s, GroundedFor(p));
  }

  /**
   * In every reachable state every outcome is earned: a recorded success was answered by a packet
   * from the target with the echo identifier and that probe's own sequence number, and a recorded
   * loss is a probe that waited its full timeout or never got out.
   */
  lemma OutcomesEarned(p: Setup, start: U64, s: State, k: nat)
    requires Reached(p, start, s) && k < |s.h.outcomes|
    ensures |s.h.resolved| == |s.h.grounds| == |s.h.outcomes|
    ensures Earned(p, s.h.ticks, s.h.outcomes[k], s.h.resolved[k], s.h.grounds[k])
  {
    ReachedGrounded(p, start, s);
  }
}

/** Accounting: one probe at a time, every send accounted for once, and the failure count. */
module Ledger {
  import opened Base
  import opened Timers
  import opened Monitor
  import opened Runs
  import Icmp
  import Stats

  // ---- Readings of the history ----

  /** Ticks that handed a probe to the transport, whatever became of it. */
  function Advances(ticks: seq<Tick>): nat {
    if ticks == [] then 0
    else Advances(ticks[..|ticks| - 1]) + (if ticks[|ticks| - 1].result != Skipped then 1 else 0)
  }

  predicate Counted(r: TickResult) {
    r == Sent || r == Unreachable
  }

  /** Sends that returned OK or UNREACHABLE. */
  function Sends(ticks: seq<Tick>): nat {
    if ticks == [] then 0
    else Sends(ticks[..|ticks| - 1]) + (if Counted(ticks[|ticks| - 1].result) then 1 else 0)
  }

  /** The length of the longest all-lost end of an outcome history. */
  function LossRun(outcomes: seq<Stats.Sample>): (n: nat)
    ensures n <= |outcomes|
    ensures forall k :: |outcomes| - n <= k < |outcomes| ==> outcomes[k].Lost?
    ensures n < |outcomes| ==> outcomes[|outcomes| - n - 1].Answered?
  {
    if outcomes == [] || outcomes[|outcomes| - 1].Answered? then 0
    else 1 + LossRun(outcomes[..|outcomes| - 1])
  }

  predicate Increasing(s: seq<nat>) {
    forall i, j :: 0 <= i < j < |s| ==> s[i] < s[j]
  }

  // ---- The invariant ----

  /** The reply timer is armed exactly while a probe is outstanding, under the transport's sequence number. */
  predicate OneProbe(reply: U64, probe: U16, sequence: U16, ticks: seq<Tick>) {
    && (Armed(reply) <==> probe != 0)
    && (Armed(reply) ==> probe == sequence)
    && sequence == Icmp.SequenceAfter(Advances(ticks))
  }

  /** The failure count is the run of losses at the end, and the statistics are those of the outcomes. */
  predicate Scored(fails: nat, totals: Stats.Totals, outcomes: seq<Stats.Sample>) {
    fails == LossRun(outcomes) && totals == Stats.After(outcomes)
  }

  /**
   * Every counted send is exactly one of: an outcome, the outstanding probe, an abandoned probe.
   * Outcomes belong to distinct sends, in order.
   */
  predicate Conserved(ticks: seq<Tick>, resolved: seq<nat>, abandoned: nat, outstanding: bool) {
    && Sends(ticks) == |resolved| + (if outstanding then 1 else 0) + abandoned
    && Increasing(resolved)
    && (forall i :: 0 <= i < |resolved| ==> resolved[i] < |ticks| && Counted(ticks[resolved[i]].result))
    && (outstanding ==>
          && ticks != [] && ticks[LastSend(ticks)].result == Sent
          && forall i :: 0 <= i < |resolved| ==> resolved[i] < LastSend(ticks))
  }

  predicate Books(s: State) {
    && s.now < CLOCK_LIMIT
    && OneProbe(s.reply, s.probe, s.sequence, s.h.ticks)
    && Scored(s.fails, s.totals, s.h.outcomes)
    && |s.h.resolved| == |s.h.outcomes|
    && Conserved(s.h.ticks, s.h.resolved, s.h.abandoned, Armed(s.reply))
  }

  // ---- Preservation ----

  lemma AppendTick(ticks: seq<Tick>, t: Tick)
    ensures var u := ticks + [t];
            && Advances(u) == Advances(ticks) + (if t.result != Skipped then 1 else 0)
            && Sends(u) == Sends(ticks) + (if Counted(t.result) then 1 else 0)
            && LastSend(u) == if t.result != Skipped then |ticks| else LastSend(ticks)
  {
    assert (ticks + [t])[..|ticks|] == ticks;
  }

  lemma AppendOutcome(o: seq<Stats.Sample>, x: Stats.Sample)
    ensures var u := o + [x];
            && LossRun(u) == (if x.Lost? then LossRun(o) + 1 else 0)
            && Stats.After(u) == Stats.Add(Stats.After(o), x)
  {
    assert (o + [x])[..|o|] == o;
  }

  lemma ConservedByTick(ticks: seq<Tick>, resolved: seq<nat>, abandoned: nat, outstanding: bool, t: Tick)
    requires Conserved(ticks, resolved, abandoned, outstanding)
    requires outstanding <==> t.result == Skipped
    ensures t.result == Unreachable ==> Conserved(ticks + [t], resolved + [|ticks|], abandoned, false)
    ensures t.result != Unreachable ==> Conserved(ticks + [t], resolved, abandoned, outstanding || t.result == Sent)
  {
    AppendTick(ticks, t);
  }

  lemma ConservedByOutcome(ticks: seq<Tick>, resolved: seq<nat>, abandoned: nat)
    requires Conserved(ticks, resolved, abandoned, true)
    ensures Conserved(ticks, resolved + [LastSend(ticks)], abandoned, false)
    ensures Conserved(ticks, resolved, abandoned + 1, false)
  {
  }

  lemma BooksByOutcome(p: Setup, s: State, x: Stats.Sample, g: Ground, accepted: bool)
    requires Books(s) && Armed(s.reply)
    ensures Books(Record(Because(ResetProbe(s), g), x))
    ensures Books(CheckThreshold(p, Record(Because(ResetProbe(s), g), x), accepted))
  {
    ConservedByOutcome(s.h.ticks, s.h.resolved, s.h.abandoned);
    AppendOutcome(s.h.outcomes, x);
    BooksByCheck(p, Record(Because(ResetProbe(s), g), x), accepted);
  }

  lemma BooksByCheck(p: Setup, s: State, accepted: bool)
    ensures Books(CheckThreshold(p, s, accepted)) == Books(s)
  {
  }

  lemma BooksByDrain(p: Setup, s: State, mail: Mail)
    requires Books(s)
    ensures Books(Drained(p, s, mail))
  {
    match VerdictOn(p, s, mail)
    case NoMatch =>
    case Found(from, seen) => BooksByOutcome(p, s, Stats.Answered(mail.latencyUs), ByReply(from, seen), false);
    case Fatal =>
      if Armed(s.reply) {
        ConservedByOutcome(s.h.ticks, s.h.resolved, s.h.abandoned);
      }
  }

  lemma BooksByReply(p: Setup, s: State, i: Input)
    requires Books(s) && Armed(s.reply) && !s.stopping
    ensures Books(OnReply(p, s, i))
  {
    var fired := s.(h := s.h.(timeouts := s.h.timeouts + [s.now]));
    BooksByDrain(p, fired, i.lastChance);
    BooksByOutcome(p, fired, Stats.Lost, ByTimeout(s.now), i.replyAccepted);
  }

  lemma BooksByPing(p: Setup, s: State, i: Input)
    requires ValidSetup(p) && Books(s) && !s.stopping
    ensures Books(OnPing(p, s, i))
  {
    var result := TickResultOf(s, Icmp.StatusOf(i.kernel, PACKET_SIZE));
    var t := Tick(s.ping, s.now, result);
    ConservedByTick(s.h.ticks, s.h.resolved, s.h.abandoned, Armed(s.reply), t);
    ProbeByTick(s.reply, s.probe, s.sequence, s.h.ticks, t, s.now, p.config.timeoutMs);
    match result
    case Skipped => assert OnPing(p, s, i) == Ticked(p, s, result);
    case Refused => assert OnPing(p, s, i) == Halt(Ticked(p, s, result), EXIT_FAILURE, SendFailed);
    case Unreachable =>
      BooksByUnreachable(p, s);
      BooksByCheck(p, Record(Because(Ticked(p, s, result), BySend), Stats.Lost), i.sendAccepted);
    case Sent =>
  }

  lemma BooksByUnreachable(p: Setup, s: State)
    requires Books(s) && !Armed(s.reply)
    ensures Books(Record(Because(Ticked(p, s, Unreachable), BySend), Stats.Lost))
  {
    var t := Tick(s.ping, s.now, Unreachable);
    ConservedByTick(s.h.ticks, s.h.resolved, s.h.abandoned, false, t);
    AppendTick(s.h.ticks, t);
    AppendOutcome(s.h.outcomes, Stats.Lost);
    assert Record(Because(Ticked(p, s, Unreachable), BySend), Stats.Lost).h.resolved == s.h.resolved + [|s.h.ticks|];
  }

  lemma ProbeByTick(reply: U64, probe: U16, sequence: U16, ticks: seq<Tick>, t: Tick, now: U64, timeout: U64)
    requires OneProbe(reply, probe, sequence, ticks)
    requires now < CLOCK_LIMIT && timeout <= INT_MAX && (Armed(reply) <==> t.result == Skipped)
    ensures var next := Icmp.NextSequence(sequence);
            match t.result
            case Skipped => OneProbe(reply, probe, sequence, ticks + [t])
            case Sent => OneProbe(AddSat(now, timeout), next, next, ticks + [t])
            case _ => OneProbe(reply, probe, next, ticks + [t])
  {
    AppendTick(ticks, t);
  }

  lemma BooksPreserved(p: Setup, late: nat)
    requires ValidSetup(p)
    ensures Preserved(p, late, Books)
  {
    forall s: State, i: Input | Books(s) && Fires(s, s.reply, late)
      ensures Books(OnReply(p, s, i))
    {
      BooksByReply(p, s, i);
    }
    forall s: State, i: Input | Books(s) && Fires(s, s.ping, late)
      ensures Books(OnPing(p, s, i))
    {
      BooksByPing(p, s, i);
    }
    forall s: State, mail: Mail | Books(s)
      ensures Books(Drained(p, s, mail))
    {
      BooksByDrain(p, s, mail);
    }
  }

  /** The books balance in every reachable state. */
  lemma BooksBalance(p: Setup, start: U64, s: State)
    requires Reached(p, start, s)
    ensures Books(s)
  {
    ReachedValid(p, start, 0, s);
    ReachedAnyhow(p, start, s);
    BooksPreserved(p, U64_MAX);
    ReachedPreserves(p, start, U64_MAX, s, Books);
  }
}

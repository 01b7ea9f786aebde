/** The threshold action and the ways the loop stops. */
module Policy {
  import opened Base
  import opened Timers
  import opened Monitor
  import opened Runs
  import opened Ledger
  import Icmp
  import Stats

  /** The outcome counts at which the threshold is met: exactly there the action is due. */
  function ActionPoints(outcomes: seq<Stats.Sample>, threshold: nat): seq<nat> {
    if outcomes == [] then []
    else
      ActionPoints(outcomes[..|outcomes| - 1], threshold)
      + if LossRun(outcomes) >= threshold then [|outcomes|] else []
  }

  /** The actions ran at these points, one each, in order. */
  predicate RanAt(actions: seq<Action>, points: seq<nat>) {
    |actions| == |points| && forall i :: 0 <= i < |actions| ==> actions[i].at == points[i]
  }

  // ---- The invariant ----

  /** An action runs with the threshold met, and not before its last probe was due. */
  predicate ActionSound(p: Setup, ticks: seq<Tick>, outcomes: seq<Stats.Sample>, resolved: seq<nat>, a: Action) {
    && 0 < a.at <= |outcomes| == |resolved|
    && p.config.threshold <= LossRun(outcomes[..a.at])
    && resolved[a.at - 1] < |ticks|
    && ticks[resolved[a.at - 1]].fired <= a.time
    && (a.result == Simulated <==> !p.config.poweroff)
  }

  /** The action ran exactly at the points where the threshold was met; only the last can have succeeded. */
  predicate ActionsDue(p: Setup, ticks: seq<Tick>, outcomes: seq<Stats.Sample>, resolved: seq<nat>,
                       actions: seq<Action>, stopping: bool) {
    && |resolved| == |outcomes|
    && RanAt(actions, ActionPoints(outcomes, p.config.threshold))
    && (forall i :: 0 <= i < |actions| ==> ActionSound(p, ticks, outcomes, resolved, actions[i]))
    && (forall i :: 0 <= i < |actions| && actions[i].result != Failed ==> stopping && i == |actions| - 1)
  }

  predicate ActionSucceeded(actions: seq<Action>) {
    actions != [] && actions[|actions| - 1].result != Failed
  }

  predicate JustActed(h: History) {
    h.actions != [] && h.actions[|h.actions| - 1].at == |h.outcomes|
  }

  predicate SendRefused(ticks: seq<Tick>) {
    ticks != [] && ticks[|ticks| - 1].result == Refused
  }

  /** The loop stops at most once, nothing happens after, and the exit code follows from the cause. */
  predicate StopsOnce(stopping: bool, exitCode: int, h: History) {
    if stopping then
      && |h.stops| == 1
      && var stop := h.stops[0];
      && stop.size == Size(h)
      && exitCode == stop.code == ExitFor(stop.cause)
      && (stop.cause == ActionDone <==> ActionSucceeded(h.actions))
      && (stop.cause == ActionDone ==> JustActed(h))
      && (stop.cause == SendFailed <==> SendRefused(h.ticks))
      && h.abandoned <= (if stop.cause == ReceiveFailed then 1 else 0)
    else
      && h.stops == [] && exitCode == EXIT_SUCCESS
      && !ActionSucceeded(h.actions) && !SendRefused(h.ticks) && h.abandoned == 0
  }

  predicate Judged(p: Setup, s: State) {
    && ActionsDue(p, s.h.ticks, s.h.outcomes, s.h.resolved, s.h.actions, s.stopping)
    && StopsOnce(s.stopping, s.exitCode, s.h)
    && s.fails == LossRun(s.h.outcomes)
    && (forall i :: 0 <= i < |s.h.ticks| ==> s.h.ticks[i].fired <= s.now)
    && (Armed(s.reply) ==> s.h.ticks != [])
  }

  // ---- Preservation ----

  lemma AppendPoint(o: seq<Stats.Sample>, x: Stats.Sample, threshold: nat)
    ensures ActionPoints(o + [x], threshold)
            == ActionPoints(o, threshold) + if LossRun(o + [x]) >= threshold then [|o| + 1] else []
  {
    assert (o + [x])[..|o|] == o;
  }

  /** Later ticks leave the actions sound. */
  lemma ActionsByTick(p: Setup, h: History, stopping: bool, t: Tick)
    requires ActionsDue(p, h.ticks, h.outcomes, h.resolved, h.actions, stopping)
    ensures ActionsDue(p, h.ticks + [t], h.outcomes, h.resolved, h.actions, stopping)
  {
    forall i | 0 <= i < |h.actions|
      ensures ActionSound(p, h.ticks + [t], h.outcomes, h.resolved, h.actions[i])
    {
      assert ActionSound(p, h.ticks, h.outcomes, h.resolved, h.actions[i]);
    }
  }

  /** Later outcomes leave the actions so far sound. */
  lemma SoundByOutcome(p: Setup, h: History, x: Stats.Sample, tick: nat)
    requires ActionsDue(p, h.ticks, h.outcomes, h.resolved, h.actions, false)
    ensures forall i :: 0 <= i < |h.actions| ==>
              && ActionSound(p, h.ticks, h.outcomes + [x], h.resolved + [tick], h.actions[i])
              && h.actions[i].result == Failed
  {
    forall i | 0 <= i < |h.actions|
      ensures ActionSound(p, h.ticks, h.outcomes + [x], h.resolved + [tick], h.actions[i])
    {
      assert ActionSound(p, h.ticks, h.outcomes, h.resolved, h.actions[i]);
      assert (h.outcomes + [x])[..h.actions[i].at] == h.outcomes[..h.actions[i].at];
    }
  }

  /** One more outcome below the threshold asks for no action. */
  lemma NoActionByOutcome(p: Setup, h: History, x: Stats.Sample, tick: nat)
    requires ActionsDue(p, h.ticks, h.outcomes, h.resolved, h.actions, false)
    requires LossRun(h.outcomes + [x]) < p.config.threshold
    ensures ActionsDue(p, h.ticks, h.outcomes + [x], h.resolved + [tick], h.actions, false)
  {
    AppendPoint(h.outcomes, x, p.config.threshold);
    SoundByOutcome(p, h, x, tick);
  }

  /** One more outcome that meets the threshold asks for exactly one action. */
  lemma ActionByOutcome(p: Setup, h: History, x: Stats.Sample, tick: nat, now: U64, result: ActionResult)
    requires ActionsDue(p, h.ticks, h.outcomes, h.resolved, h.actions, false)
    requires tick < |h.ticks| && h.ticks[tick].fired <= now
    requires LossRun(h.outcomes + [x]) >= p.config.threshold && (result == Simulated <==> !p.config.poweroff)
    ensures var a := Action(|h.outcomes| + 1, now, result);
            ActionsDue(p, h.ticks, h.outcomes + [x], h.resolved + [tick], h.actions + [a], result != Failed)
  {
    var a := Action(|h.outcomes| + 1, now, result);
    AppendPoint(h.outcomes, x, p.config.threshold);
    SoundByOutcome(p, h, x, tick);
    assert (h.outcomes + [x])[..a.at] == h.outcomes + [x];
    assert ActionSound(p, h.ticks, h.outcomes + [x], h.resolved + [tick], a);
  }

  /** A recorded outcome followed by the threshold check; a success never meets the threshold. */
  lemma JudgedByOutcome(p: Setup, s: State, x: Stats.Sample, accepted: bool)
    requires ValidSetup(p) && Judged(p, s) && !s.stopping && s.h.ticks != []
    ensures Judged(p, CheckThreshold(p, Record(s, x), accepted))
    ensures x.Answered? ==> CheckThreshold(p, Record(s, x), accepted) == Record(s, x)
  {
    AppendOutcome(s.h.outcomes, x);
    var r, c := Record(s, x), CheckThreshold(p, Record(s, x), accepted);
    assert r.fails == LossRun(s.h.outcomes + [x]);
    if r.fails < p.config.threshold {
      assert c == r;
      JudgedBelow(p, s, x);
    } else {
      var result := ActionResultOf(p, accepted);
      assert c == if result == Failed then Acted(r, result) else Halt(Acted(r, result), EXIT_SUCCESS, ActionDone);
      JudgedAtThreshold(p, s, x, result);
    }
  }

  lemma JudgedBelow(p: Setup, s: State, x: Stats.Sample)
    requires Judged(p, s) && !s.stopping && LossRun(s.h.outcomes + [x]) < p.config.threshold
    ensures Judged(p, Record(s, x))
  {
    AppendOutcome(s.h.outcomes, x);
    NoActionByOutcome(p, s.h, x, LastSend(s.h.ticks));
    JudgedFrom(p, s, Record(s, x));
  }

  lemma ActsAtThreshold(p: Setup, s: State, x: Stats.Sample, result: ActionResult)
    requires Judged(p, s) && !s.stopping && s.h.ticks != []
    requires LossRun(s.h.outcomes + [x]) >= p.config.threshold && (result == Simulated <==> !p.config.poweroff)
    ensures var a := Acted(Record(s, x), result);
            && ActionsDue(p, a.h.ticks, a.h.outcomes, a.h.resolved, a.h.actions, result != Failed)
            && a.fails == LossRun(a.h.outcomes) && JustActed(a.h)
  {
    AppendOutcome(s.h.outcomes, x);
    ActionByOutcome(p, s.h, x, LastSend(s.h.ticks), s.now, result);
  }

  lemma JudgedAtThreshold(p: Setup, s: State, x: Stats.Sample, result: ActionResult)
    requires Judged(p, s) && !s.stopping && s.h.ticks != []
    requires LossRun(s.h.outcomes + [x]) >= p.config.threshold && (result == Simulated <==> !p.config.poweroff)
    ensures var a := Acted(Record(s, x), result);
            Judged(p, if result == Failed then a else Halt(a, EXIT_SUCCESS, ActionDone))
  {
    var a := Acted(Record(s, x), result);
    var u := if result == Failed then a else Halt(a, EXIT_SUCCESS, ActionDone);
    ActsAtThreshold(p, s, x, result);
    StopByAction(s.exitCode, s.h, a);
    JudgedFrom(p, s, u);
  }

  /** What is left to check when actions, stops and count are in order. */
  lemma JudgedFrom(p: Setup, s: State, u: State)
    requires Judged(p, s) && u.h.ticks == s.h.ticks && u.now == s.now && u.reply == s.reply
    requires ActionsDue(p, u.h.ticks, u.h.outcomes, u.h.resolved, u.h.actions, u.stopping)
    requires StopsOnce(u.stopping, u.exitCode, u.h) && u.fails == LossRun(u.h.outcomes)
    ensures Judged(p, u)
  {
  }

  lemma StopByAction(exitCode: int, h: History, a: State)
    requires StopsOnce(false, exitCode, h) && a.exitCode == exitCode
    requires a.h.ticks == h.ticks && a.h.abandoned == h.abandoned && a.h.stops == h.stops
    requires JustActed(a.h)
    ensures var u := Halt(a, EXIT_SUCCESS, ActionDone);
            if ActionSucceeded(a.h.actions) then StopsOnce(true, u.exitCode, u.h) else StopsOnce(false, a.exitCode, a.h)
  {
  }

  lemma JudgedBecause(p: Setup, s: State, g: Ground)
    requires Judged(p, s)
    ensures Judged(p, Because(s, g))
  {
  }

  lemma JudgedByDrain(p: Setup, s: State, mail: Mail)
    requires ValidSetup(p) && Judged(p, s) && !s.stopping
    ensures Judged(p, Drained(p, s, mail))
  {
    match VerdictOn(p, s, mail)
    case NoMatch =>
    case Fatal =>
    case Found(from, seen) =>
      assert Armed(s.reply);
      JudgedByOutcome(p, Because(ResetProbe(s), ByReply(from, seen)), Stats.Answered(mail.latencyUs), false);
  }

  lemma JudgedByReply(p: Setup, s: State, i: Input)
    requires ValidSetup(p) && Judged(p, s) && !s.stopping && Armed(s.reply)
    ensures Judged(p, OnReply(p, s, i))
  {
    var fired := s.(h := s.h.(timeouts := s.h.timeouts + [s.now]));
    JudgedByDrain(p, fired, i.lastChance);
    JudgedByOutcome(p, Because(ResetProbe(fired), ByTimeout(s.now)), Stats.Lost, i.replyAccepted);
  }

  lemma JudgedByTick(p: Setup, s: State, result: TickResult)
    requires Judged(p, s) && !s.stopping
    ensures result != Refused ==> Judged(p, Ticked(p, s, result))
    ensures result == Refused ==> Judged(p, Halt(Ticked(p, s, result), EXIT_FAILURE, SendFailed))
  {
    ActionsByTick(p, s.h, s.stopping, Tick(s.ping, s.now, result));
  }

  lemma JudgedByPing(p: Setup, s: State, i: Input)
    requires ValidSetup(p) && Judged(p, s) && !s.stopping
    ensures Judged(p, OnPing(p, s, i))
  {
    var result := TickResultOf(s, Icmp.StatusOf(i.kernel, PACKET_SIZE));
    JudgedByTick(p, s, result);
    if result == Unreachable {
      var u := Because(Ticked(p, s, result), BySend);
      JudgedBecause(p, Ticked(p, s, result), BySend);
      assert OnPing(p, s, i) == CheckThreshold(p, Record(u, Stats.Lost), i.sendAccepted);
      JudgedByOutcome(p, u, Stats.Lost, i.sendAccepted);
    }
  }

  lemma JudgedByWatchdog(p: Setup, s: State)
    requires Judged(p, s) && !s.stopping
    ensures Judged(p, OnWatchdog(p, s))
  {
  }

  lemma JudgedByHalt(p: Setup, s: State, c: Cause)
    requires Judged(p, s) && !s.stopping && External(c)
    ensures Judged(p, Halt(s, ExitFor(c), c))
  {
  }

  ghost function JudgedFor(p: Setup): State -> bool {
    s => Judged(p, s)
  }

  lemma JudgedPreserved(p: Setup, late: nat)
    requires ValidSetup(p)
    ensures Preserved(p, late, JudgedFor(p))
  {
    forall s: State | Judged(p, s) && Fires(s, s.watchdog, late)
      ensures Judged(p, OnWatchdog(p, s))
    {
      JudgedByWatchdog(p, s);
    }
    forall s: State, c: Cause | Judged(p, s) && !s.stopping && External(c)
      ensures Judged(p, Halt(s, ExitFor(c), c))
    {
      JudgedByHalt(p, s, c);
    }
    forall s: State, i: Input | Judged(p, s) && Fires(s, s.reply, late)
      ensures Judged(p, OnReply(p, s, i))
    {
      JudgedByReply(p, s, i);
    }
    forall s: State, i: Input | Judged(p, s) && Fires(s, s.ping, late)
      ensures Judged(p, OnPing(p, s, i))
    {
      JudgedByPing(p, s, i);
    }
    forall s: State, mail: Mail | Judged(p, s) && !s.stopping
      ensures Judged(p, Drained(p, s, mail))
    {
      JudgedByDrain(p, s, mail);
    }
  }

  lemma JudgedAtStart(p: Setup, start: U64)
    requires ValidSetup(p)
    ensures Judged(p, Start(p, start))
  {
  }

  /** In every reachable state the actions are those due and the stops are in order. */
  lemma ReachedJudged(p: Setup, start: U64, s: State)
    requires Reached(p, start, s)
    ensures Judged(p, s)
  {
    ReachedValid(p, start, 0, s);
    ReachedAnyhow(p, start, s);
    JudgedPreserved(p, U64_MAX);
    JudgedAtStart(p, start);
    ReachedPreserves(p, start, U64_MAX, s, JudgedFor(p));
  }
}

/** Timing of whole runs: the tick, heartbeat and timeout logs and what follows from them. */
module Schedule {
  import opened Base
  import opened Timers
  import opened Monitor
  import opened Runs
  import opened Ledger
  import Icmp

  function FirstDeadline(p: Setup, start: U64): nat {
    start + p.config.startDelayMs
  }

  // ---- The invariant ----

  /** No live deadline is near saturation, so the ping schedule never dies. */
  predicate LiveDeadlines(p: Setup, s: State) {
    && s.now < CLOCK_LIMIT
    && s.ping <= s.now + p.config.intervalMs + p.config.startDelayMs
    && (Armed(s.reply) ==> s.reply <= s.now + p.config.timeoutMs)
    && (if p.beatMs == 0 then !Armed(s.watchdog) else s.watchdog <= s.now + p.beatMs)
  }

  predicate Follows(p: Setup, t: Tick, u: Tick) {
    && u.deadline == Step(t.deadline, p.config.intervalMs, t.fired)
    && t.fired <= u.fired
    && (u.result == Skipped ==> t.result == Sent && u.fired < t.fired + p.config.timeoutMs)
  }

  /** Ticks follow one another by the stepping rule, and a skip follows the send that is still outstanding. */
  ghost predicate TickLog(p: Setup, start: U64, late: nat, ticks: seq<Tick>) {
    && (ticks != [] ==> ticks[0].deadline == FirstDeadline(p, start) && ticks[0].result != Skipped)
    && (forall i :: 0 <= i < |ticks| ==>
          ticks[i].deadline <= ticks[i].fired < CLOCK_LIMIT && ticks[i].fired <= ticks[i].deadline + late)
    && (forall i, j :: 0 <= i && j == i + 1 && j < |ticks| ==> Follows(p, ticks[i], ticks[j]))
  }

  /** The ping deadline continues the tick log, and the reply deadline is the last send's. */
  ghost predicate OnSchedule(p: Setup, start: U64, late: nat, ticks: seq<Tick>, now: U64, ping: U64, reply: U64) {
    && TickLog(p, start, late, ticks)
    && (if ticks == [] then ping == FirstDeadline(p, start) && !Armed(reply)
        else
          var t := ticks[|ticks| - 1];
          && t.fired <= now
          && ping == Step(t.deadline, p.config.intervalMs, t.fired)
          && (Armed(reply) ==>
                if t.result == Skipped
                then |ticks| > 1 && reply == ticks[|ticks| - 2].fired + p.config.timeoutMs
                else t.result == Sent && reply == t.fired + p.config.timeoutMs))
  }

  predicate BeatFollows(p: Setup, t: Beat, u: Beat) {
    u.deadline == Step(t.deadline, p.beatMs, t.fired) && t.fired <= u.fired
  }

  /** Heartbeats follow one another by the stepping rule. */
  ghost predicate BeatLog(p: Setup, start: U64, late: nat, beats: seq<Beat>, now: U64, watchdog: U64) {
    if p.beatMs == 0 then beats == []
    else
      && (beats != [] ==> beats[0].deadline == start + p.beatMs && beats[|beats| - 1].fired <= now)
      && (forall i :: 0 <= i < |beats| ==>
            beats[i].deadline <= beats[i].fired < CLOCK_LIMIT && beats[i].fired <= beats[i].deadline + late)
      && (forall i, j :: 0 <= i && j == i + 1 && j < |beats| ==> BeatFollows(p, beats[i], beats[j]))
      && watchdog == if beats == [] then start + p.beatMs
                     else Step(beats[|beats| - 1].deadline, p.beatMs, beats[|beats| - 1].fired)
  }

  /** Reply timeouts happen at ever later readings. */
  predicate TimeoutLog(timeouts: seq<U64>, now: U64, reply: U64) {
    && Increasing(timeouts)
    && (timeouts != [] ==>
          var t := timeouts[|timeouts| - 1];
          t <= now && (Armed(reply) ==> t < reply))
  }

  ghost predicate Timed(p: Setup, start: U64, late: nat, s: State) {
    && LiveDeadlines(p, s)
    && OnSchedule(p, start, late, s.h.ticks, s.now, s.ping, s.reply)
    && BeatLog(p, start, late, s.h.beats, s.now, s.watchdog)
    && TimeoutLog(s.h.timeouts, s.now, s.reply)
  }

  // ---- Preservation ----

  /** At a tick with a probe still outstanding, the tick before sent that probe. */
  lemma SkipFollowsSend(p: Setup, start: U64, late: nat, ticks: seq<Tick>, now: U64, ping: U64, reply: U64)
    requires ValidSetup(p) && OnSchedule(p, start, late, ticks, now, ping, reply)
    requires ping <= now < reply && Armed(reply)
    ensures ticks != [] && ticks[|ticks| - 1].result == Sent
  {
  }

  lemma ScheduleByTick(p: Setup, start: U64, late: nat, ticks: seq<Tick>, now: U64, ping: U64, reply: U64,
                       r: TickResult)
    requires ValidSetup(p) && OnSchedule(p, start, late, ticks, now, ping, reply)
    requires ping <= now < CLOCK_LIMIT && now <= ping + late
    requires Armed(reply) ==> now < reply
    requires Armed(reply) <==> r == Skipped
    ensures OnSchedule(p, start, late, ticks + [Tick(ping, now, r)], now, Step(ping, p.config.intervalMs, now),
                       if r == Sent then now + p.config.timeoutMs else reply)
  {
    if Armed(reply) {
      SkipFollowsSend(p, start, late, ticks, now, ping, reply);
    }
    var t := Tick(ping, now, r);
    if ticks != [] {
      assert Follows(p, ticks[|ticks| - 1], t);
    }
  }

  lemma BeatsByFiring(p: Setup, start: U64, late: nat, beats: seq<Beat>, now: U64, watchdog: U64)
    requires ValidSetup(p) && BeatLog(p, start, late, beats, now, watchdog) && p.beatMs > 0
    requires watchdog <= now < CLOCK_LIMIT && now <= watchdog + late
    ensures BeatLog(p, start, late, beats + [Beat(watchdog, now)], now, Step(watchdog, p.beatMs, now))
  {
    if beats != [] {
      assert BeatFollows(p, beats[|beats| - 1], Beat(watchdog, now));
    }
  }

  lemma TimedByWatchdog(p: Setup, start: U64, late: nat, s: State)
    requires ValidSetup(p) && Timed(p, start, late, s) && Fires(s, s.watchdog, late)
    ensures Timed(p, start, late, OnWatchdog(p, s))
  {
    BeatsByFiring(p, start, late, s.h.beats, s.now, s.watchdog);
  }

  lemma TimedByPing(p: Setup, start: U64, late: nat, s: State, i: Input)
    requires ValidSetup(p) && Timed(p, start, late, s) && Fires(s, s.ping, late)
    requires Armed(s.reply) ==> s.now < s.reply
    ensures Timed(p, start, late, OnPing(p, s, i))
  {
    var result := TickResultOf(s, Icmp.StatusOf(i.kernel, PACKET_SIZE));
    ScheduleByTick(p, start, late, s.h.ticks, s.now, s.ping, s.reply, result);
    PingEffect(p, s, i);
  }

  /** What a tick does to the timers and their logs. */
  lemma PingEffect(p: Setup, s: State, i: Input)
    requires ValidSetup(p) && s.now < CLOCK_LIMIT
    ensures var r := OnPing(p, s, i);
            var result := TickResultOf(s, Icmp.StatusOf(i.kernel, PACKET_SIZE));
            && r.h.ticks == s.h.ticks + [Tick(s.ping, s.now, result)]
            && r.h.beats == s.h.beats && r.h.timeouts == s.h.timeouts
            && r.ping == Step(s.ping, p.config.intervalMs, s.now)
            && r.reply == if result == Sent then s.now + p.config.timeoutMs else s.reply
  {
  }

  /** Disarming the reply timer and noting a timeout that is not before the last one keep the timing. */
  lemma TimedByReset(p: Setup, start: U64, late: nat, s: State, r: State)
    requires Timed(p, start, late, s)
    requires r.now == s.now && r.watchdog == s.watchdog && r.ping == s.ping
    requires r.h.ticks == s.h.ticks && r.h.beats == s.h.beats
    requires r.reply == s.reply || !Armed(r.reply)
    requires || r.h.timeouts == s.h.timeouts
             || (!Armed(r.reply) && Due(s.reply, s.now) && r.h.timeouts == s.h.timeouts + [s.now])
    ensures Timed(p, start, late, r)
  {
  }

  lemma TimedByReply(p: Setup, start: U64, late: nat, s: State, i: Input)
    requires Timed(p, start, late, s) && Fires(s, s.reply, late)
    ensures Timed(p, start, late, OnReply(p, s, i))
  {
    TimedByReset(p, start, late, s, OnReply(p, s, i));
  }

  lemma TimedByDrain(p: Setup, start: U64, late: nat, s: State, mail: Mail)
    requires Timed(p, start, late, s)
    ensures Timed(p, start, late, Drained(p, s, mail))
  {
    TimedByReset(p, start, late, s, Drained(p, s, mail));
  }

  lemma TimedByClock(p: Setup, start: U64, late: nat, s: State, t: U64)
    requires Timed(p, start, late, s) && s.now <= t < CLOCK_LIMIT
    ensures Timed(p, start, late, At(s, t))
  {
  }

  ghost function TimedFor(p: Setup, start: U64, late: nat): State -> bool {
    s => Timed(p, start, late, s)
  }

  lemma TimedPreserved(p: Setup, start: U64, late: nat)
    requires ValidSetup(p)
    ensures Preserved(p, late, TimedFor(p, start, late))
  {
    forall s: State, t: U64 | Timed(p, start, late, s) && s.now <= t < CLOCK_LIMIT
      ensures Timed(p, start, late, At(s, t))
    {
      TimedByClock(p, start, late, s, t);
    }
    forall s: State | Timed(p, start, late, s) && Fires(s, s.watchdog, late)
      ensures Timed(p, start, late, OnWatchdog(p, s))
    {
      TimedByWatchdog(p, start, late, s);
    }
    forall s: State, i: Input | Timed(p, start, late, s) && Fires(s, s.reply, late)
      ensures Timed(p, start, late, OnReply(p, s, i))
    {
      TimedByReply(p, start, late, s, i);
    }
    forall s: State, i: Input
      | Timed(p, start, late, s) && Fires(s, s.ping, late) && (Armed(s.reply) ==> s.now < s.reply)
      ensures Timed(p, start, late, OnPing(p, s, i))
    {
      TimedByPing(p, start, late, s, i);
    }
    forall s: State, mail: Mail | Timed(p, start, late, s)
      ensures Timed(p, start, late, Drained(p, s, mail))
    {
      TimedByDrain(p, start, late, s, mail);
    }
    forall s: State, c: Cause | Timed(p, start, late, s)
      ensures Timed(p, start, late, Halt(s, ExitFor(c), c))
    {
      TimedByReset(p, start, late, s, Halt(s, ExitFor(c), c));
    }
  }

  /** Every state of a punctual execution is timed. */
  lemma ReachedTimed(p: Setup, start: U64, late: nat, s: State)
    requires ReachedWithin(p, start, late, s)
    ensures Timed(p, start, late, s)
  {
    ReachedValid(p, start, late, s);
    TimedPreserved(p, start, late);
    ReachedPreserves(p, start, late, s, TimedFor(p, start, late));
  }
}

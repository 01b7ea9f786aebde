/** The monitor as the program runs it: objects updated in place, proved against the state machine. */
module EventLoop {
  import opened Base
  import opened Timers
  import opened Monitor
  import opened Runs
  import Drain
  import Icmp
  import Stats

  const WATCHDOG: nat := 0
  const REPLY: nat := 1
  const PING: nat := 2
  const FDS: nat := 2

  class App {
    const p: Setup
    const icmp: Icmp.Transport
    const stats: Stats.Recorder
    const deadlines: array<U64>
    var now: U64
    var stopping: bool
    var exitCode: int
    var probe: U16
    var fails: nat
    ghost var h: History

    ghost predicate Valid()
      reads this, icmp
    {
      && deadlines.Length == SLOTS
      && icmp.Valid() && icmp.isOpen && icmp.family == p.dest.family
      && deadlines as object != icmp.sendBuf
    }

    /** The state of the state machine this object is in. */
    ghost function View(): State
      reads this, deadlines, icmp, stats
      requires deadlines.Length == SLOTS
    {
      State(now, stopping, exitCode, deadlines[WATCHDOG], deadlines[REPLY], deadlines[PING],
            icmp.sequence, probe, fails, stats.totals, h)
    }

    constructor (p: Setup, start: U64)
      ensures Valid() && this.p == p && View() == Start(p, start)
      ensures fresh(deadlines) && fresh(icmp) && fresh(icmp.sendBuf) && fresh(stats)
    {
      this.p := p;
      icmp := new Icmp.Transport(p.dest.family);
      stats := new Stats.Recorder();
      var slots := new U64[SLOTS](_ => DISARMED);
      deadlines := slots;
      now, stopping, exitCode, probe, fails, h := start, false, EXIT_SUCCESS, 0, 0, EMPTY;
      slots[PING] := AddSat(start, p.config.startDelayMs);
      if p.beatMs > 0 {
        slots[WATCHDOG] := AddSat(start, p.beatMs);
      }
    }

    // ---- Timer slots ----

    method StepTimer(slot: nat, interval: U64)
      requires Valid() && slot < SLOTS
      modifies deadlines
      ensures deadlines[..] == old(deadlines[..])[slot := Step(old(deadlines[slot]), interval, now)]
    {
      if interval == 0 {
        deadlines[slot] := DISARMED;
        return;
      }
      var base := if Armed(deadlines[slot]) then deadlines[slot] else now;
      var next := AddSat(base, interval);
      if next < now {
        next := AddSat(now, interval);
      }
      deadlines[slot] := next;
    }

    /** The nearest deadline by a scan of the slots, turned into a poll(2) timeout. */
    method PollTimeoutMs() returns (timeout: int)
      requires Valid()
      ensures timeout == PollTimeout(View())
    {
      var nearest: U64 := U64_MAX;
      for i := 0 to SLOTS
        invariant forall k :: 0 <= k < i ==> nearest <= deadlines[k]
        invariant nearest == U64_MAX || exists k :: 0 <= k < i && nearest == deadlines[k]
      {
        if deadlines[i] < nearest {
          nearest := deadlines[i];
        }
      }
      assert nearest <= deadlines[WATCHDOG] && nearest <= deadlines[REPLY] && nearest <= deadlines[PING];
      assert nearest == Nearest(View());
      if nearest == U64_MAX {
        return -1;
      }
      if nearest <= now {
        return 0;
      }
      var remaining := nearest - now;
      timeout := if remaining > INT_MAX then INT_MAX else remaining;
    }

    // ---- Probe lifecycle ----

    method Halted(code: int, ghost cause: Cause)
      requires Valid()
      modifies this
      ensures Valid() && View() == Halt(old(View()), code, cause)
    {
      stopping := true;
      exitCode := code;
      h := h.(stops := h.stops + [Stop(code, cause, Size(h))]);
    }

    method ProbeReset()
      requires Valid()
      modifies this, deadlines
      ensures Valid() && View() == ResetProbe(old(View()))
    {
      probe := 0;
      deadlines[REPLY] := DISARMED;
    }

    method ProbeFailed(ghost ground: Ground)
      requires Valid()
      modifies this, stats
      ensures Valid() && View() == Record(Because(old(View()), ground), Stats.Lost)
    {
      fails := fails + 1;
      stats.AddFail();
      h := h.(grounds := h.grounds + [ground],
              outcomes := h.outcomes + [Stats.Lost], resolved := h.resolved + [LastSend(h.ticks)]);
    }

    method ProbeSucceeded(latencyUs: Stats.Latency, ghost ground: Ground)
      requires Valid()
      modifies this, stats
      ensures Valid() && View() == Record(Because(old(View()), ground), Stats.Answered(latencyUs))
    {
      fails := 0;
      stats.AddOk(latencyUs);
      h := h.(grounds := h.grounds + [ground],
              outcomes := h.outcomes + [Stats.Answered(latencyUs)], resolved := h.resolved + [LastSend(h.ticks)]);
    }

    method CheckThresholdNow(accepted: bool)
      requires Valid()
      modifies this
      ensures Valid() && View() == CheckThreshold(p, old(View()), accepted)
    {
      if fails < p.config.threshold {
        return;
      }
      var result := ActionResultOf(p, accepted);
      h := h.(actions := h.actions + [Action(|h.outcomes|, now, result)]);
      if result == Simulated {
        Halted(EXIT_SUCCESS, ActionDone);
        return;
      }
      if result != Triggered {
        return;
      }
      Halted(EXIT_SUCCESS, ActionDone);
    }

    /** What a drain of the socket comes across first. */
    method Received(mail: Mail) returns (v: Drain.Verdict)
      requires Valid()
      ensures v == VerdictOn(p, View(), mail)
    {
      v := Drain.Scan(Drain.Expected(p.dest, p.id, probe), Armed(deadlines[REPLY]), mail.queue);
    }

    /** Drains the socket; true when the outstanding probe's reply was found and recorded. */
    method DrainAndMatch(mail: Mail) returns (matched: bool)
      requires Valid()
      modifies this, deadlines, stats
      ensures Valid() && View() == Drained(p, old(View()), mail)
      ensures matched == VerdictOn(p, old(View()), mail).Found?
    {
      var v := Received(mail);
      match v
      case NoMatch =>
        matched := false;
      case Fatal =>
        h := h.(abandoned := h.abandoned + if Armed(deadlines[REPLY]) then 1 else 0);
        ProbeReset();
        Halted(EXIT_FAILURE, ReceiveFailed);
        matched := false;
      case Found(from, seen) =>
        ProbeReset();
        ProbeSucceeded(mail.latencyUs, ByReply(from, seen));
        matched := true;
    }

    /** Sends the next probe, which advances the sequence number and nothing else of the state. */
    method SendProbe(kernel: Icmp.KernelSend) returns (status: Icmp.SendStatus)
      requires Valid()
      modifies icmp, icmp.sendBuf
      ensures Valid() && View() == old(View()).(sequence := Icmp.NextSequence(old(View()).sequence))
      ensures status == Icmp.StatusOf(kernel, PACKET_SIZE)
      ensures Icmp.OnTheWire(p.dest.family, p.id, icmp.sequence, icmp.sendBuf[..64])
    {
      status := icmp.SendEcho(p.dest, p.id, PACKET_SIZE, kernel);
    }

    // ---- Loop callbacks ----

    /** A tick that sends leaves in the buffer the request whose reply it then waits for. */
    method OnPingTimer(i: Input)
      requires Valid()
      modifies this, deadlines, icmp, icmp.sendBuf, stats
      ensures Valid() && View() == OnPing(p, old(View()), i)
      ensures !Armed(old(deadlines[REPLY])) ==>
                Icmp.OnTheWire(p.dest.family, p.id, icmp.sequence, icmp.sendBuf[..64])
    {
      ghost var result := TickResultOf(View(), Icmp.StatusOf(i.kernel, PACKET_SIZE));
      h := h.(ticks := h.ticks + [Tick(deadlines[PING], now, result)]);
      StepTimer(PING, p.config.intervalMs);
      if Armed(deadlines[REPLY]) {
        return;
      }
      var status := SendProbe(i.kernel);
      if status == Icmp.SendError {
        Halted(EXIT_FAILURE, SendFailed);
        return;
      }
      if status == Icmp.SendUnreachable {
        ProbeFailed(BySend);
        CheckThresholdNow(i.sendAccepted);
        return;
      }
      probe := icmp.sequence;
      deadlines[REPLY] := AddSat(now, p.config.timeoutMs);
    }

    method OnReplyTimer(i: Input)
      requires Valid()
      modifies this, deadlines, stats
      ensures Valid() && View() == OnReply(p, old(View()), i)
    {
      h := h.(timeouts := h.timeouts + [now]);
      var matched := DrainAndMatch(i.lastChance);
      if matched || stopping {
        return;
      }
      ProbeReset();
      ProbeFailed(ByTimeout(now));
      CheckThresholdNow(i.replyAccepted);
    }

    method OnWatchdogTimer()
      requires Valid()
      modifies this, deadlines
      ensures Valid() && View() == OnWatchdog(p, old(View()))
    {
      h := h.(beats := h.beats + [Beat(deadlines[WATCHDOG], now)]);
      StepTimer(WATCHDOG, p.beatMs);
    }

    // ---- The loop ----

    /** Fires every elapsed timer once, in slot order, until something stops the loop. */
    method FireTimers(i: Input)
      requires Valid()
      modifies this, deadlines, icmp, icmp.sendBuf, stats
      ensures Valid() && View() == FireFrom(p, old(View()), i, 0)
    {
      var slot := 0;
      while slot < SLOTS && !stopping
        invariant slot <= SLOTS && Valid()
        invariant FireFrom(p, View(), i, slot) == FireFrom(p, old(View()), i, 0)
        decreases SLOTS - slot
      {
        if Armed(deadlines[slot]) && now >= deadlines[slot] {
          if slot == WATCHDOG {
            OnWatchdogTimer();
          } else if slot == REPLY {
            OnReplyTimer(i);
          } else {
            OnPingTimer(i);
          }
        }
        slot := slot + 1;
      }
    }

    /** Serves the signal channel and then the socket; an error on the former stops the loop. */
    method DispatchFds(signal: SignalEvent, socket: SocketEvent)
      requires Valid() && !stopping
      modifies this, deadlines, stats
      ensures Valid() && View() == Dispatch(p, old(View()), signal, socket)
    {
      var fd := 0;
      while fd < FDS && !stopping
        invariant fd <= FDS && Valid()
        invariant fd == 0 ==> View() == old(View())
        invariant fd == 1 ==> View() == OnSignal(old(View()), signal)
        invariant fd == 2 ==> View() == Dispatch(p, old(View()), signal, socket)
        decreases FDS - fd
      {
        if fd == 0 {
          match signal
          case NoSignal =>
          case SignalError =>
            Halted(EXIT_FAILURE, SignalChannelBroken);
            return;
          case SignalRead(signo) =>
            if signo == Some(SIGINT) || signo == Some(SIGTERM) {
              Halted(EXIT_SUCCESS, Signalled);
            }
        } else if socket.Readable? {
          var _ := DrainAndMatch(socket.mail);
        }
        fd := fd + 1;
      }
    }

    /** One turn of the loop; what poll(2) answers is the environment's choice. */
    method Turn(i: Input)
      requires Valid() && !stopping
      modifies this, deadlines, icmp, icmp.sendBuf, stats
      ensures Valid() && View() == Iterate(p, old(View()), i)
    {
      if i.clock.None? {
        Halted(EXIT_FAILURE, ClockFailed);
        return;
      }
      now := i.clock.value;
      FireTimers(i);
      if stopping {
        return;
      }
      var timeout := PollTimeoutMs();
      match i.poll
      case PollQuiet =>
      case PollError =>
        Halted(EXIT_FAILURE, PollFailed);
      case PollReady(clock, signal, socket) =>
        if clock.None? {
          Halted(EXIT_FAILURE, ClockFailed);
        } else {
          now := clock.value;
          DispatchFds(signal, socket);
        }
    }

    /** The loop over the inputs the environment supplies reaches exactly the state of the run. */
    method RunLoop(inputs: seq<Input>, ghost start: U64) returns (code: int)
      requires Valid() && View() == Start(p, start)
      modifies this, deadlines, icmp, icmp.sendBuf, stats
      ensures Valid() && View() == Run(p, start, inputs)
      ensures code == Run(p, start, inputs).exitCode
      ensures Legal(p, start, inputs) ==> Reached(p, start, View())
    {
      var k := 0;
      while !stopping && k < |inputs|
        invariant k <= |inputs| && Valid()
        invariant View() == Run(p, start, inputs[..k])
        decreases |inputs| - k
      {
        Turn(inputs[k]);
        k := k + 1;
        assert inputs[..k][..k - 1] == inputs[..k - 1];
      }
      assert inputs[..k] + inputs[k..] == inputs;
      if stopping {
        StoppedRun(p, start, inputs[..k], inputs[k..]);
      } else {
        assert inputs[..k] == inputs;
      }
      code := exitCode;
      if Legal(p, start, inputs) {
        RunReached(p, start, inputs);
      }
    }
  }
}

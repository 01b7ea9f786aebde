/**
 * The monitor of src/app.c running on the event loop of src/loop.c, as a state machine: one step
 * per loop iteration, driven by whatever the clock, the kernel, the network, signals and the
 * shutdown command answer. The state carries the history the properties speak about.
 */
module Monitor {
  import opened Base
  import opened Timers
  import Icmp
  import Drain
  import Stats
  import Config

  const PACKET_SIZE: nat := 64
  const EXIT_SUCCESS: int := 0
  const EXIT_FAILURE: int := 1
  const SIGINT: int := 2
  const SIGTERM: int := 15

  /** Clock readings stay below 2^63 milliseconds. */
  const CLOCK_LIMIT: int := 0x8000_0000_0000_0000

  /** Resolved settings, heartbeat interval (zero for none), target and echo identifier. */
  datatype Setup = Setup(config: Config.Settings, beatMs: U64, dest: Icmp.Address, id: U16)

  predicate ValidSetup(p: Setup) {
    Config.InBounds(p.config) && p.beatMs <= U64_MAX / 2000
  }

  // ---- History ----

  datatype TickResult = Skipped | Sent | Unreachable | Refused

  /** One firing of the ping timer. */
  datatype Tick = Tick(deadline: U64, fired: U64, result: TickResult)

  /** One firing of the watchdog timer, that is, one heartbeat attempt. */
  datatype Beat = Beat(deadline: U64, fired: U64)

  /** Why an outcome was recorded: a packet that was seen, a reply timeout, or the kernel's refusal. */
  datatype Ground = ByReply(from: Icmp.Address, seen: seq<Byte>) | ByTimeout(at: U64) | BySend

  datatype ActionResult = Simulated | Triggered | Failed

  /** One run of the threshold action, after `at` recorded outcomes. */
  datatype Action = Action(at: nat, time: U64, result: ActionResult)

  datatype Cause =
    | ClockFailed | PollFailed | SignalChannelBroken | SendFailed | ReceiveFailed
    | Signalled | ActionDone

  /** One call to stop the loop, with the size of the history at that moment. */
  datatype Stop = Stop(code: int, cause: Cause, size: nat)

  datatype History = History(
    ticks: seq<Tick>,
    beats: seq<Beat>,
    timeouts: seq<U64>,          // firings of the reply timer
    outcomes: seq<Stats.Sample>, // recorded probes
    resolved: seq<nat>,          // for each outcome, the tick that sent its probe
    grounds: seq<Ground>,        // for each outcome, why it was recorded
    abandoned: nat,              // outstanding probes dropped by a fatal receive error
    actions: seq<Action>,
    stops: seq<Stop>)

  const EMPTY := History([], [], [], [], [], [], 0, [], [])

  /** Everything that ever happened except stops. */
  function Size(h: History): nat {
    |h.ticks| + |h.beats| + |h.timeouts| + |h.outcomes| + h.abandoned + |h.actions|
  }

  /** The last tick that sent a probe. */
  function LastSend(ticks: seq<Tick>): (n: nat)
    ensures ticks != [] ==> n < |ticks|
  {
    if ticks == [] then 0
    else if ticks[|ticks| - 1].result != Skipped then |ticks| - 1
    else LastSend(ticks[..|ticks| - 1])
  }

  // ---- State ----

  datatype State = State(
    now: U64,
    stopping: bool,
    exitCode: int,
    watchdog: U64,
    reply: U64,
    ping: U64,
    sequence: U16,
    probe: U16,
    fails: nat,
    totals: Stats.Totals,
    h: History)

  /** app_run's arming, with the clock read once; the loop reads `now` only after refreshing it. */
  function Start(p: Setup, start: U64): State {
    State(start, false, EXIT_SUCCESS,
          if p.beatMs > 0 then AddSat(start, p.beatMs) else DISARMED,
          DISARMED,
          AddSat(start, p.config.startDelayMs),
          0, 0, 0, Stats.INITIAL, EMPTY)
  }

  // ---- Probe lifecycle ----

  function Halt(s: State, code: int, cause: Cause): State {
    s.(stopping := true, exitCode := code, h := s.h.(stops := s.h.stops + [Stop(code, cause, Size(s.h))]))
  }

  function ResetProbe(s: State): State {
    s.(probe := 0, reply := DISARMED)
  }

  function Because(s: State, g: Ground): State {
    s.(h := s.h.(grounds := s.h.grounds + [g]))
  }

  function Record(s: State, x: Stats.Sample): State {
    s.(fails := if x.Lost? then s.fails + 1 else 0,
       totals := Stats.Add(s.totals, x),
       h := s.h.(outcomes := s.h.outcomes + [x], resolved := s.h.resolved + [LastSend(s.h.ticks)]))
  }

  /** Dry-run simulates; otherwise systemctl accepted the request or it did not. */
  function ActionResultOf(p: Setup, accepted: bool): ActionResult {
    if !p.config.poweroff then Simulated else if accepted then Triggered else Failed
  }

  function Acted(s: State, result: ActionResult): State {
    s.(h := s.h.(actions := s.h.actions + [Action(|s.h.outcomes|, s.now, result)]))
  }

  /**
   * One action is run exactly when the threshold is met, and the loop stops, with exit code 0,
   * exactly when that action is simulated or accepted; the count and the outcomes stay.
   */
  function CheckThreshold(p: Setup, s: State, accepted: bool): (r: State)
    ensures |r.h.actions| == |s.h.actions| + (if s.fails >= p.config.threshold then 1 else 0)
    ensures s.h.actions <= r.h.actions
    ensures !s.stopping ==>
              (r.stopping <==> s.fails >= p.config.threshold && (p.config.poweroff ==> accepted))
    ensures r.stopping && !s.stopping ==> r.exitCode == 0
    ensures r.fails == s.fails && r.h.outcomes == s.h.outcomes
  {
    if s.fails < p.config.threshold then s
    else
      var result := ActionResultOf(p, accepted);
      if result == Failed then Acted(s, result) else Halt(Acted(s, result), EXIT_SUCCESS, ActionDone)
  }

  /** What waits in the socket, and the round trip to record should it hold the reply. */
  datatype Mail = Mail(queue: seq<Drain.Arrival>, latencyUs: Stats.Latency)

  function Awaited(p: Setup, s: State): Drain.Expected {
    Drain.Expected(p.dest, p.id, s.probe)
  }

  function VerdictOn(p: Setup, s: State, mail: Mail): Drain.Verdict {
    Drain.Verdict32(Awaited(p, s), Armed(s.reply), mail.queue)
  }

  function Drained(p: Setup, s: State, mail: Mail): State {
    match VerdictOn(p, s, mail)
    case NoMatch => s
    case Found(from, seen) => Record(Because(ResetProbe(s), ByReply(from, seen)), Stats.Answered(mail.latencyUs))
    case Fatal =>
      var dropped := if Armed(s.reply) then 1 else 0;
      Halt(ResetProbe(s).(h := s.h.(abandoned := s.h.abandoned + dropped)), EXIT_FAILURE, ReceiveFailed)
  }

  function At(s: State, now: U64): State {
    s.(now := now)
  }

  // ---- Timer callbacks ----

  /** Everything the environment decides in one loop iteration. */
  datatype Input = Input(
    clock: Option<U64>,
    lastChance: Mail,
    replyAccepted: bool,
    kernel: Icmp.KernelSend,
    sendAccepted: bool,
    poll: Poll)

  datatype Poll = PollError | PollQuiet | PollReady(clock: Option<U64>, signal: SignalEvent, socket: SocketEvent)
  datatype SignalEvent = NoSignal | SignalError | SignalRead(signo: Option<int>)
  datatype SocketEvent = NoPacket | SocketError | Readable(mail: Mail)

  function OnWatchdog(p: Setup, s: State): (r: State)
    ensures r.now == s.now && r.stopping == s.stopping && r.reply == s.reply && r.ping == s.ping
  {
    s.(watchdog := Step(s.watchdog, p.beatMs, s.now),
       h := s.h.(beats := s.h.beats + [Beat(s.watchdog, s.now)]))
  }

  /**
   * Whatever the drain finds, no probe is outstanding afterwards: the reply is a success, a receive
   * error stops the loop with no outcome, and silence is a loss.
   */
  function OnReply(p: Setup, s: State, i: Input): (r: State)
    ensures r.now == s.now && r.watchdog == s.watchdog && r.ping == s.ping
    ensures r.h.ticks == s.h.ticks && r.h.beats == s.h.beats && r.h.timeouts == s.h.timeouts + [s.now]
    ensures !s.stopping ==> !Armed(r.reply)
    ensures !s.stopping ==>
              match VerdictOn(p, s, i.lastChance)
              case Found(_, _) => r.h.outcomes == s.h.outcomes + [Stats.Answered(i.lastChance.latencyUs)]
              case Fatal => r.h.outcomes == s.h.outcomes && r.stopping && r.exitCode == 1
              case NoMatch => r.h.outcomes == s.h.outcomes + [Stats.Lost]
  {
    var fired := s.(h := s.h.(timeouts := s.h.timeouts + [s.now]));
    var d := Drained(p, fired, i.lastChance);
    if VerdictOn(p, fired, i.lastChance).Found? || d.stopping then d
    else CheckThreshold(p, Record(Because(ResetProbe(d), ByTimeout(s.now)), Stats.Lost), i.replyAccepted)
  }

  function TickResultOf(s: State, status: Icmp.SendStatus): TickResult {
    if Armed(s.reply) then Skipped
    else match status case SendOk => Sent case SendUnreachable => Unreachable case SendError => Refused
  }

  /** The schedule steps and, unless the tick is skipped, the sequence number advances. */
  function Ticked(p: Setup, s: State, result: TickResult): State {
    s.(ping := Step(s.ping, p.config.intervalMs, s.now),
       sequence := if result == Skipped then s.sequence else Icmp.NextSequence(s.sequence),
       h := s.h.(ticks := s.h.ticks + [Tick(s.ping, s.now, result)]))
  }

  function OnPing(p: Setup, s: State, i: Input): (r: State)
    ensures r.now == s.now && r.watchdog == s.watchdog
  {
    var result := TickResultOf(s, Icmp.StatusOf(i.kernel, PACKET_SIZE));
    var t := Ticked(p, s, result);
    match result
    case Skipped => t
    case Refused => Halt(t, EXIT_FAILURE, SendFailed)
    case Unreachable => CheckThreshold(p, Record(Because(t, BySend), Stats.Lost), i.sendAccepted)
    case Sent => t.(probe := t.sequence, reply := AddSat(s.now, p.config.timeoutMs))
  }

  // ---- The loop ----

  const SLOTS: nat := 3

  /** Registration order: watchdog, reply, ping. */
  function Deadline(s: State, slot: nat): U64
    requires slot < SLOTS
  {
    if slot == 0 then s.watchdog else if slot == 1 then s.reply else s.ping
  }

  function FireSlot(p: Setup, s: State, i: Input, slot: nat): State
    requires slot < SLOTS
  {
    if !Due(Deadline(s, slot), s.now) then s
    else if slot == 0 then OnWatchdog(p, s)
    else if slot == 1 then OnReply(p, s, i)
    else OnPing(p, s, i)
  }

  function FireFrom(p: Setup, s: State, i: Input, slot: nat): (r: State)
    requires slot <= SLOTS
    ensures r.now == s.now
    decreases SLOTS - slot
  {
    if slot == SLOTS || s.stopping then s else FireFrom(p, FireSlot(p, s, i, slot), i, slot + 1)
  }

  function Nearest(s: State): U64 {
    Min(s.watchdog, Min(s.reply, s.ping))
  }

  /** What poll(2) may sleep: forever (-1) with no timer armed, not at all with one due, never past INT_MAX. */
  function PollTimeout(s: State): int {
    var nearest := Nearest(s);
    if !Armed(nearest) then -1
    else if nearest <= s.now then 0
    else Min(nearest - s.now, INT_MAX)
  }

  function OnSignal(s: State, e: SignalEvent): State {
    match e
    case NoSignal => s
    case SignalError => Halt(s, EXIT_FAILURE, SignalChannelBroken)
    case SignalRead(signo) =>
      if signo == Some(SIGINT) || signo == Some(SIGTERM) then Halt(s, EXIT_SUCCESS, Signalled) else s
  }

  function OnSocket(p: Setup, s: State, e: SocketEvent): State {
    match e case Readable(mail) => Drained(p, s, mail) case _ => s
  }

  function Dispatch(p: Setup, s: State, signal: SignalEvent, socket: SocketEvent): State {
    var signalled := OnSignal(s, signal);
    if signalled.stopping then signalled else OnSocket(p, signalled, socket)
  }

  function AfterPoll(p: Setup, s: State, poll: Poll): State {
    match poll
    case PollError => Halt(s, EXIT_FAILURE, PollFailed)
    case PollQuiet => s
    case PollReady(clock, signal, socket) =>
      if clock.None? then Halt(s, EXIT_FAILURE, ClockFailed)
      else Dispatch(p, At(s, clock.value), signal, socket)
  }

  function Iterate(p: Setup, s: State, i: Input): State {
    if s.stopping then s
    else if i.clock.None? then Halt(s, EXIT_FAILURE, ClockFailed)
    else
      var fired := FireFrom(p, At(s, i.clock.value), i, 0);
      if fired.stopping then fired else AfterPoll(p, fired, i.poll)
  }

  function Run(p: Setup, start: U64, inputs: seq<Input>): State {
    if inputs == [] then Start(p, start)
    else Iterate(p, Run(p, start, inputs[..|inputs| - 1]), inputs[|inputs| - 1])
  }

  predicate Reading(last: U64, clock: Option<U64>) {
    clock.Some? ==> last <= clock.value < CLOCK_LIMIT
  }

  /** The only assumption on the environment: clock readings never decrease. */
  predicate Monotone(s: State, i: Input) {
    && Reading(s.now, i.clock)
    && (i.clock.Some? && i.poll.PollReady? ==> Reading(i.clock.value, i.poll.clock))
  }

  predicate Legal(p: Setup, start: U64, inputs: seq<Input>) {
    && ValidSetup(p) && start < CLOCK_LIMIT
    && (inputs != [] ==>
          && Legal(p, start, inputs[..|inputs| - 1])
          && Monotone(Run(p, start, inputs[..|inputs| - 1]), inputs[|inputs| - 1]))
  }
}

# linkstay in Dafny

linkstay probes one host by ICMP echo on a periodic schedule, counts consecutive failures and powers
the machine off when the count reaches a threshold. This project models the program's decision logic
and proves what it promises over whole runs: that it never acts early, acts in time whenever the target
goes away, never acts on a target that answers, counts every probe once, and stops exactly when there is
a reason to; when the kernel packet filter can be noticed, and that the status cache cannot. The formats,
numbers, variable names and defaults the program exchanges with the outside are written out as such in
the contracts, not by the names the model gives them.

## How the model is built

- `Monitor` is the monitor and its event loop as a state machine. One step is one loop iteration; its
  input is everything the environment decides in it: clock readings, the kernel's answer to a send, the
  packets waiting in the socket, signals, poll results, and whether the shutdown command was accepted.
  The state carries a history of ticks, heartbeats, timeouts, outcomes, actions and stops.
- `EventLoop` is the same program in its own form: an object with timer slots, a transport with a send
  buffer and a statistics recorder, all updated in place. Each method is proved to take the object from
  one state of the machine to the next, and its loop to reach exactly the state of the run.
- `Runs` says which states executions reach, and is an induction principle: a property that every
  callback preserves, in the situations in which the loop calls it, holds in every reached state.
  `Ledger`, `Schedule`, `Policy` and `Evidence` are such properties, and so is the invariant in
  `Detection`; `Iterations`, `Guarantees`, `Stops`, `Detection` and `Wakeups` are what follows from them,
  `Probes` follows one probe from send to outcome, and `Attained` has runs that meet the time bounds
  exactly.
- `Checksum`, `Icmp`, `Bpf`, `Drain` and `Filtering` are the packet layer, on a little-endian host.
- `Config`, `Stats` and `Notify` are configuration, statistics and the service-manager channel.

The only assumption on the environment, in `Execution`, is that clock readings never decrease and stay
below 2^63 milliseconds; a reading may fail. Lateness enters as a hypothesis of single theorems:
`Punctual` bounds how late any timer fires, and `Prompt` bounds only what the operating system adds to a
poll timeout. `now` starts at the reading taken before the loop; the program's own field is not read
before its first refresh.

## What turned out not to hold as documented

- The comment above the drain says it returns false when the socket is exhausted. It also does so after
  32 packets: `DrainMisses` says exactly when a reply or error is left waiting, `FilterTransparent` when
  this makes the filtered and the unfiltered program differ, and `FloodHidesReply` shows that any 32
  stray packets in front of any reply do.
- The registration-order comment says a timeout is handled before the next probe is due. A tick can find
  a probe outstanding: `SkipsExactly` says after which lateness, and `SkipsHappen` that each such lateness
  leads to a skip in some run of every setup.
- The watchdog interval is documented as half of `WATCHDOG_USEC`. Two intervals fit in it exactly when
  `WATCHDOG_USEC` is at least 2000 (`WatchdogIntervalMs`).

## Model

| member | source | states |
|---|---|---|
| `Base.AddSat` | src/base.h:63-65 | saturating addition is addition clamped to the largest uint64 |
| `Base.MulSat` | src/base.h:67-70 | the division test makes it multiplication clamped to the largest uint64 |
| `Timers.Step` | src/loop.h:126-138 | a fired periodic timer is never scheduled into the past, advances at least one interval, and keeps its phase exactly when it was at most one interval late |
| `Checksum.Compute` | src/icmp.c:93-109 | unless the uint32 sum wraps, storing the native result natively puts the checksum of RFC 1071 on the wire in network order, for even and odd lengths |
| `Checksum.SumBound` | src/icmp.c:95-104 | the uint32 accumulator cannot wrap for buffers up to 131074 bytes |
| `Checksum.FoldLaw` | src/icmp.c:105-107 | end-around carry keeps the sum modulo 65535 and folds only zero to zero |
| `Checksum.FoldSwaps` | src/icmp.c:91-109 | folding the native sum and folding the network-order sum give byte-swapped results |
| `Checksum.WireBytes` | src/icmp.c:91-109 | complement and native store of the native sum are the two bytes RFC 1071 prescribes |
| `Checksum.SealedSumIsZero` | src/icmp.c:184-191 | adding a buffer's checksum to its sum makes the buffer verify |
| `Icmp.SequenceClosedForm` | src/icmp.c:120-126 | after n advances the sequence number is ((n-1) mod 65535)+1, never 0 once a send happened |
| `Icmp.SequencesCollide` | src/icmp.c:120-126 | two sends share a sequence number exactly when they are a multiple of 65535 sends apart |
| `Icmp.EchoRequestVerifies` | src/icmp.c:183-192 | every IPv4 request, for all identifiers, sequences and lengths, has checksum zero when re-summed, without wrapping in the send buffer |
| `Icmp.RequestOnTheWire` | src/icmp.c:169-192 | for every family, identifier, sequence and length the request is byte for byte an echo request: type 8 or 128, code 0, both halves of identifier and sequence, counting data bytes, a checksum that verifies for IPv4 and zero for IPv6 |
| `Icmp.SendStatusExactly` | src/icmp.c:128-143 | the seven network conditions by error number, and a full-length send, decide the status |
| `Icmp.Transport.FillPayload` | src/icmp.c:111-118 | byte 8 + i of the buffer becomes i mod 256 up to the packet length, and nothing else changes |
| `Icmp.Transport.FillHeader` | src/icmp.c:170-189 | the first eight bytes become type 8 or 128, code 0, a zero checksum and identifier and sequence in network order, and nothing else changes |
| `Icmp.Transport.SendEcho` | src/icmp.c:145-214 | a closed socket, a wrong family or a size outside 8 to 256 changes nothing and is an error; otherwise the sequence goes from 65535 to 1 or up by one whatever the kernel says, the buffer holds an echo request as it must be on the wire, and the status is unreachable exactly for errno 101, 113, 100, 112, 102, 105 and 11, ok exactly for a full send |
| `Icmp.MatchBehind` | src/icmp.c:239-267 | behind any IPv4 header of 20 to 60 bytes (or nothing for IPv6) the matcher accepts exactly an echo reply with this identifier and sequence |
| `Icmp.ReplyRoundTrip` | src/icmp.c:239-267 | the answer to a request matches exactly that request's identifier and sequence; the looped-back request matches nothing |
| `Icmp.MatchExactly` | src/icmp.c:239-267 | the matcher accepts exactly the packets that are an IPv4 header of 20 to 60 bytes with protocol 1 (nothing for IPv6) followed by an echo reply, type 0 or 129, with this identifier and sequence |
| `Icmp.DeliveredEarly` | src/icmp.c:291-293 | a receive buffer of at least 68 bytes never hides such a reply |
| `Bpf.FilterMeaning` | src/icmp.c:31-52 | under an interpreter, a filter program keeps a packet exactly when the byte at its type offset exists and is an echo reply |
| `Bpf.FilterKeepsReplies` | src/icmp.c:31-52 | whatever the matcher accepts in the part of a packet it sees, the filter keeps |
| `Drain.First` | src/app.c:335-366 | the first arrival that is a receive error, or a match while a probe is outstanding |
| `Drain.ReceiveExactly` | src/icmp.c:269-307 | a packet is received as a match exactly when it comes from the target and delivers the echo reply with the expected identifier and sequence, whatever its length |
| `Drain.AnswerReceived` | src/icmp.c:269-307 | the peer's answer to a request on the wire, for every length, header and checksum, is received as a match from the target and ignored from anyone else |
| `Drain.VerdictExactly` | src/app.c:335-366 | what the bounded drain yields, in terms of packets and the number 32 alone |
| `Drain.Scan` | src/app.c:335-366 | the bounded loop is settled by the first arrival among the first 32 that is a receive error or a packet from the target delivering the expected reply while a probe is outstanding; it reports that packet's sender and first 1500 bytes, and nothing when there is none |
| `Drain.DrainMisses` | src/app.c:335-366 | an answer or error is in the queue and the drain reports nothing exactly when at least 32 others come before the first one |
| `Drain.FilterKeepsDecisive` | src/icmp.c:31-52 | the filter drops nothing decisive, and its trimming is invisible behind the receive buffer |
| `Drain.FirstSurvives` | src/icmp.c:31-52 | a sieve that passes every decisive arrival keeps the first one, no later than before, and makes none |
| `Drain.FilterTransparent` | src/app.c:335-366 | what the unfiltered drain finds, the filtered one finds; they differ exactly when filtering moves the first decisive arrival inside the 32-packet budget, never with at most 32 packets queued |
| `Drain.FloodHidesReply` | src/app.c:335-366 | for every target, identifier and sequence, behind any 32 or more packets the filter drops the plain drain misses a reply that the filtered drain finds |
| `Filtering.IterationUnchanged` | src/loop.c:213-248 | one iteration goes the same way behind the filter exactly when no drain that runs in it is moved |
| `Filtering.FilterInvisible` | src/app.c:335-366 | an execution passes through the same states behind the filter exactly when no drain that runs in it has its first decisive arrival moved inside the 32-packet budget, and the other way round; queues of at most 32 packets are never moved |
| `Stats.Clamped` | src/stats.c:20-40 | after any history the counters and the latency sum are the true totals clamped to uint64 |
| `Stats.Refines` | src/stats.c:12-44 | in addition, minimum and maximum are those of the samples, or the sentinel before the first success |
| `Stats.AverageBetween` | src/stats.c:54-73 | absent saturation min * ok <= sum <= max * ok |
| `Stats.Recorder.constructor` | src/stats.c:12-18 | starts at the totals of the empty history |
| `Stats.Recorder.AddOk` | src/stats.c:20-36 | in place, adds one answered sample to the totals |
| `Stats.Recorder.AddFail` | src/stats.c:38-40 | in place, adds one lost sample to the totals |
| `Notify.Channel.Status` | src/notify.c:99-121 | a request reported delivered leaves the receiver showing the requested text, or its first 239 characters; it is answered without sending exactly when the receiver was told that text less than 2000 ms ago by the wrapping clock difference, else sent once as STATUS= and the text; a failed one changes nothing |
| `Notify.Channel.StatusAll` | src/notify.c:97-121 | over any sequence of requests the receiver shows the text of the last request that a channel without the cache gets through, and every such request is reported delivered, so de-duplication cannot be observed there |
| `Notify.WatchdogIntervalMs` | src/notify.c:205-211 | zero exactly without a watchdog; two intervals fit the systemd deadline exactly when it is at least 2000 microseconds, and below that it is one millisecond |
| `Config.ToDecimal` | src/base.c:49-55 | the printed digits denote the number |
| `Config.DigitPrefix` | src/config.c:76-95 | the digits strtoull consumes: all leading digits and no more |
| `Config.DurationSound` | src/config.c:123-155 | every accepted duration is digits and a unit, in range, with its exact value |
| `Config.DurationComplete` | src/config.c:123-155 | every duration in range is accepted with its exact value |
| `Config.DurationExact` | src/config.c:123-155 | the parser accepts exactly digits followed by s or ms whose unbounded value is in range; clamping and checked multiplication never change an answer |
| `Config.DurationPrinted` | src/base.c:49-55 | whole seconds of at least one print as seconds, everything else as milliseconds, with no leading zero |
| `Config.DurationRoundTrip` | src/base.c:49-55 | parsing a printed duration gives it back, for every uint64 and every setting's range |
| `Config.PositiveIntExact` | src/config.c:80-95 | the integer parser accepts exactly the decimal numerals of 1 to INT_MAX |
| `Config.ExplainedReads` | src/config.c:170-226 | the table and its parsers read what the variables say: durations by their unit, numerals, true and false and the five level names up to letter case, a target of at most 63 characters |
| `Config.LoadEnv` | src/config.c:218-252 | the table loop yields c exactly when each of the seven LINKSTAY_ variables, by name, says that setting of c in range, or is absent and the setting has its documented default; it fails exactly when a variable that is present says nothing its setting can take |
| `Config.Resolve` | src/config.c:261-316 | resolution yields c exactly when the environment says c and c can be run with; it fails exactly on a malformed variable, an empty or non-literal target, timeout >= interval, or poweroff without systemd |
| `Config.ResolvedInBounds` | src/config.c:261-286 | resolved settings satisfy 1 <= timeout < interval <= INT_MAX seconds, 1 <= threshold <= INT_MAX, start delay <= INT_MAX |
| `Monitor.OnReply` | src/app.c:404-425 | the last-chance drain decides the outcome: a reply is recorded as answered, silence as lost, a receive error as nothing and stops with exit 1; no probe is outstanding afterwards, and the schedule is untouched |
| `Monitor.CheckThreshold` | src/app.c:307-326 | one action is recorded exactly when the threshold is met; a running loop stops here, with exit 0, exactly when that action is simulated or accepted; count and outcomes stay |
| `Runs.TimersPreserve` | src/loop.c:160-168 | a property the callbacks preserve survives a pass over the slots; when the ping callback is reached, an armed reply timer is not yet due |
| `Runs.IterationPreserves` | src/loop.c:213-248 | and a whole iteration, with its clock failures, poll results, signals and socket events |
| `Runs.ReachedPreserves` | src/loop.c:213-248 | such a property, holding at the start, holds in every reached state |
| `Runs.RunReached` | src/loop.c:213-248 | the state after a run on inputs with a monotone clock is a reached state |
| `Runs.StoppedRun` | src/loop.c:218-225 | a stopped run ignores every further input |
| `Ledger.ConservedByTick` | src/app.c:370-402 | a tick keeps the balance of sends against outcomes, whether it skips, sends, is refused or unreachable |
| `Ledger.ConservedByOutcome` | src/app.c:258-304 | so does resolving or abandoning the outstanding probe |
| `Ledger.ProbeByTick` | src/app.c:399-401 | after a tick the reply timer is armed exactly with a non-zero expected sequence, which is the transport's |
| `Ledger.BooksByReply` | src/app.c:404-425 | the reply callback keeps probe, counters, statistics and balance consistent |
| `Ledger.BooksByPing` | src/app.c:370-402 | so does the ping callback |
| `Ledger.BooksByDrain` | src/app.c:335-366 | so does a drain, on a match, on a fatal error and on neither |
| `Ledger.BooksBalance` | src/app.c:256-425 | in every reachable state: reply timer armed iff the expected sequence is non-zero and current, failure count equal to the run of losses, statistics equal to those of the outcomes, sends balanced |
| `Schedule.SkipFollowsSend` | src/app.c:374-380 | at a tick with a probe outstanding, the tick before it sent that probe |
| `Schedule.ScheduleByTick` | src/app.c:370-402 | a tick extends the tick log by the stepping rule |
| `Schedule.ReachedTimed` | src/loop.h:118-138 | in every state of a punctual execution the tick, heartbeat and timeout logs follow the stepping rule from the first deadline, and no live deadline comes near saturation |
| `Policy.NoActionByOutcome` | src/app.c:306-310 | an outcome that leaves the run of losses below the threshold asks for no action |
| `Policy.ActionByOutcome` | src/app.c:306-326 | an outcome that meets the threshold asks for exactly one action, not before its last probe was due |
| `Policy.ReachedJudged` | src/app.c:306-326 | in every reachable state the actions are exactly those due, only the last can have succeeded, and stops are unique with the right exit code |
| `Evidence.GroundedByDrain` | src/app.c:335-366 | a drain credits a success only to a packet from the target that answers the outstanding probe |
| `Evidence.GroundedByReply` | src/app.c:404-425 | the reply callback records a loss only after the full timeout |
| `Evidence.GroundedByPing` | src/app.c:370-402 | the ping callback records a loss only for a probe the kernel would not send, and expects the sequence number just sent |
| `Evidence.OutcomesEarned` | src/app.c:335-425 | in every reachable state each success rests on a packet from the target with the sequence number of the very probe it is credited to, each loss on a probe that waited its full timeout or never got out |
| `Iterations.IterationContinues` | src/app.c:306-326 | whatever an iteration does, the logs only grow, and each new action follows a loss of its own and has the result of the answer given for that loss |
| `Iterations.TickAdded` | src/app.c:370-397 | an iteration adds at most one tick; it is skipped, or sent exactly for a full 64-byte send, unreachable exactly for the seven network conditions, and otherwise refused, which stops the loop |
| `Iterations.TimeoutRecorded` | src/app.c:404-425 | the only timeout an iteration records is for the probe outstanding before it, after a drain that found nothing |
| `Iterations.TimeoutsUnanswered` | src/app.c:404-425 | in every run, a loss by timeout is recorded only if none of the first 32 packets waiting at the last chance answered the probe it is charged to |
| `Probes.SendDecides` | src/app.c:370-402 | in every reachable running state at a due tick with no probe outstanding: each of the seven errnos is exactly one loss and no failed send, every other errno and every short send stops with exit 1 and records nothing, only a 64-byte send arms the reply timer |
| `Probes.AnsweredAtTimeout` | src/app.c:404-414 | in every reachable running state, if the answer to the outstanding probe is among the first 32 packets with no error before it when its timer fires, it is recorded as answered with its latency, the count is cleared and no action is run for it |
| `Probes.AnsweredAtPoll` | src/app.c:335-366 | the same whenever poll reports the socket readable and no signal stops the loop first |
| `Probes.HealthyTargetSafe` | src/app.c:256-425 | in every run in which each probe gets out and its answer is there when its timer fires, every outcome is an answer, the count is zero and no action is ever run |
| `Guarantees.SetupFromEnvironment` | src/app.c:560-629 | every environment that resolves gives the bounds all guarantees below need |
| `Guarantees.TickSpacing` | src/loop.h:126-138 | deadlines of later ticks are at least one interval per tick apart |
| `Guarantees.NoEarlyShutdown` | src/app.c:306-326 | however late timers fire, an action follows `threshold` losses in a row of distinct ticks and runs at least threshold-1 intervals after the first of those deadlines, hence after start + start delay + (threshold-1) intervals |
| `Guarantees.PointsMeaning` | src/app.c:306-326 | the points where the action is due are exactly the outcome counts with a run of losses at the threshold |
| `Guarantees.ActionExactlyWhenDue` | src/app.c:306-326 | after each outcome the action runs exactly once if the run of losses reached the threshold, else not; the count is that run, also after a failed poweroff |
| `Guarantees.DryRunActsOnce` | src/app.c:312-317 | a dry run acts at most once, and while it runs the count is below the threshold |
| `Guarantees.Conservation` | src/app.c:258-425 | sends that were not refused equal recorded successes, failures, the outstanding probe and one abandoned probe if a fatal receive error stopped the loop; no send is counted twice |
| `Guarantees.LateReplies` | src/app.c:399-401 | in a reachable state the answer to send m, coming from the target, is received as a match exactly when the outstanding probe is a multiple of 65535 sends away; while idle none passes |
| `Guarantees.SkipsExplained` | src/app.c:374-380 | a tick is skipped only after a sending tick late by more than interval - timeout and at most one interval; never two in a row |
| `Guarantees.SkipsExactly` | src/app.c:374-380 | in every reachable running state some next input makes the next tick a skip exactly when the last tick sent a probe that is still outstanding and was late by more than interval - timeout and at most one interval |
| `Guarantees.SkipsHappen` | src/app.c:601-603 | for every setup and every such lateness some run skips its second tick |
| `Guarantees.SteadyPhase` | src/loop.h:123-138 | while no firing is more than an interval late, the k-th ping deadline is exactly first + k * interval |
| `Guarantees.BoundedFirings` | src/loop.c:160-168 | at one clock reading periodic timers fire at most twice and the reply timer at most once |
| `Guarantees.PassClears` | src/loop.c:160-168 | after a pass that does not stop, no armed deadline is overdue, and what was not overdue before is strictly ahead |
| `Guarantees.NoSpin` | src/loop.c:213-248 | after two iterations at one clock reading poll is given a positive timeout |
| `Guarantees.PollingReached` | src/loop.c:213-248 | the state in which an iteration calls poll is itself a reachable one, so every guarantee holds there |
| `Guarantees.NeverOversleeps` | src/loop.c:170-186 | whenever poll is called the ping timer is armed and the timeout is not -1, zero exactly when a timer is due, passes no armed deadline and, unless capped, ends at one |
| `Guarantees.WatchdogGap` | src/app.c:427-441 | heartbeats are at most interval + lateness apart, from the start and up to any next reading; with a deadline of at least 2000 microseconds and lateness within the interval every gap fits it |
| `Stops.StopIsFinal` | src/loop.c:141-147 | a stopped loop stopped once, nothing was recorded after, and nothing changes any more |
| `Stops.StopExplained` | src/app.c:219-224 | every stop has its reason in the iteration that stopped; exit 0 exactly for SIGINT, SIGTERM or an action of that iteration at the threshold, simulated or accepted for its own loss; 1 for a failed clock, poll or signal channel, a refused send, or a receive error that a drain came across |
| `Stops.StopsExactly` | src/loop.c:188-248 | the loop stops in an iteration exactly when there is a reason of one of the seven kinds; so after one that goes on no drain that ran met an error, no send was refused, and every action was a shutdown request that was not accepted for its own loss |
| `Detection.LossTracked` | src/app.c:417-424 | a loss recorded in time is followed by an action in time, if any, whatever came before it |
| `Detection.TickKeepsPhase` | src/app.c:374-380 | in any run punctual up to interval - timeout, a tick finds no probe outstanding and keeps the phase |
| `Detection.AlwaysInTime` | src/app.c:306-425 | if every timer is at most L <= interval - timeout late, then in every state, whatever was answered or lost before: the k-th outcome is the k-th tick's, every action (also a retry after a failed poweroff) runs by first deadline + (outcomes - 1) intervals + timeout + 2L, and a running loop reads no clock past the bound of its next outcome |
| `Detection.OutageActedOn` | src/app.c:306-425 | an outage beginning with any tick n, after a working period or failed poweroffs alike, is acted on by deadline of tick n + (threshold-1) intervals + timeout + 2L; until it is long enough the loop was stopped by an earlier successful action or cannot read a clock past that; within the advertised threshold * interval if timeout + 2L <= interval |
| `Detection.ShutdownInTime` | src/app.c:306-425 | for a target that was never up: the first action runs by that bound, within the advertised threshold * interval if timeout + 2L <= interval, and until then the loop is running |
| `Attained.EarliestAttained` | src/app.c:306-326 | for every setup some run acts exactly threshold-1 intervals after the first deadline, so the no-early bound cannot be improved |
| `Attained.BoundAttained` | src/app.c:306-425 | for every setup without a watchdog and every lateness L <= interval - timeout some run punctual up to L acts exactly at the detection bound |
| `Attained.AdvertisedExactly` | src/app.c:460-461 | for such setups every run punctual up to L keeps the advertised threshold * interval exactly when timeout + 2L <= interval |
| `Wakeups.SleepWithinDeadlines` | src/loop.c:170-186 | with nothing overdue, a full sleep passes no armed deadline |
| `Wakeups.PromptIsPunctual` | src/loop.c:213-248 | if the system adds at most L to each poll timeout, every timer fires at most L late, and the next reading is in time too |
| `Wakeups.PromptDetection` | src/app.c:460-462 | the detection bounds for every outage and every action, from the operating system's promptness alone |
| `EventLoop.App.constructor` | src/app.c:587-629 | the object starts in the machine's start state |
| `EventLoop.App.StepTimer` | src/loop.h:126-138 | steps one slot in place and leaves the others |
| `EventLoop.App.PollTimeoutMs` | src/loop.c:170-186 | the slot scan computes the timeout of the nearest deadline |
| `EventLoop.App.Halted` | src/loop.c:141-147 | stops the loop with a code |
| `EventLoop.App.ProbeReset` | src/app.c:258-262 | clears the outstanding probe |
| `EventLoop.App.ProbeFailed` | src/app.c:266-276 | records a loss in count and statistics |
| `EventLoop.App.ProbeSucceeded` | src/app.c:278-304 | records a success in count and statistics |
| `EventLoop.App.CheckThresholdNow` | src/app.c:307-326 | runs the action when the count has reached the threshold and stops unless it failed |
| `EventLoop.App.Received` | src/app.c:335-349 | the verdict of the machine's drain |
| `EventLoop.App.SendProbe` | src/app.c:382-385 | sends the 64-byte echo request with the next sequence number, whose bytes are those of the wire format |
| `EventLoop.App.DrainAndMatch` | src/app.c:335-366 | drains the socket and reports whether the reply was found |
| `EventLoop.App.OnPingTimer` | src/app.c:370-402 | the ping step of the machine; a tick that sends leaves the request with its sequence number in the buffer |
| `EventLoop.App.OnReplyTimer` | src/app.c:404-425 | the reply step of the machine |
| `EventLoop.App.OnWatchdogTimer` | src/app.c:427-441 | the watchdog step of the machine |
| `EventLoop.App.FireTimers` | src/loop.c:160-168 | the slot loop fires elapsed timers in registration order until one stops the loop |
| `EventLoop.App.DispatchFds` | src/loop.c:188-211 | serves the signal channel, then the socket, unless something stops the loop |
| `EventLoop.App.Turn` | src/loop.c:218-245 | one loop iteration of the machine |
| `EventLoop.App.RunLoop` | src/loop.c:213-248 | the loop reaches exactly the state of the run and returns its exit code; with a monotone clock that state is a reached one, so every guarantee holds of the object |

## Left out

- The system calls themselves (sockets, signalfd, poll, clock, getenv, stat) are inputs of the model; `inet_pton` is a predicate parameter.
- Spawning and observing `systemctl` (src/app.c:94-203) is one input: accepted or not.
- `consecutive_fails` is an unbounded number; the C int would overflow after 2^31 failed poweroffs in a row.
- Big-endian hosts: the odd-length tail of the checksum differs there; the only caller sends 64 bytes.
- Latency is an input in whole microseconds below 2^64 - 1, a value that src/stats.c:25 cannot convert a double to; the floating-point arithmetic itself, the averages and the percentage are not modelled.
- `EventLoop.App.RunLoop`: takes a finite sequence of inputs; a run of the loop is any such prefix, so the loop's own non-termination is not a separate state.
- Registering fds and timers (refused when a table is full), blocking signals, building the NOTIFY_SOCKET address and the startup refusals decide only whether the loop starts; every theorem is about a loop that has started.
- Log lines, status texts, latency and uptime formatting, configuration dump: output only.
- The edge-triggered warning about failed heartbeats (src/app.c:433-440): it affects log lines only.
- Packets left in the socket after a 32-packet drain are not carried over; each wakeup's queue is an arbitrary input, which includes them.

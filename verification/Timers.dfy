/** Timer slots of src/loop.h: an absolute deadline, with the largest uint64 meaning disarmed. */
module Timers {
  import opened Base

  const DISARMED: U64 := U64_MAX

  predicate Armed(deadline: U64) {
    deadline != DISARMED
  }

  predicate Due(deadline: U64, now: U64) {
    Armed(deadline) && now >= deadline
  }

  /**
   * Stepping a periodic timer. For an armed timer that has come due, away from saturation, the
   * next deadline is not in the past, at least one interval after the old one, and at most one
   * interval after now; it keeps the phase unless the firing was more than one interval late. A
   * disarmed timer is started from now.
   */
  function Step(deadline: U64, interval: U64, now: U64): (next: U64)
    ensures interval == 0 ==> !Armed(next)
    ensures 0 < interval && !Armed(deadline) ==> next == Min(now + interval, 0xFFFF_FFFF_FFFF_FFFF)
    ensures 0 < interval && deadline <= now && now + interval < U64_MAX ==>
              && now <= next <= now + interval
              && deadline + interval <= next
              && (next == deadline + interval <==> now <= deadline + interval)
              && (next != deadline + interval ==> next == now + interval)
  {
    if interval == 0 then DISARMED
    else
      var base := if Armed(deadline) then deadline else now;
      var next := AddSat(base, interval);
      if next < now then AddSat(now, interval) else next
  }
}

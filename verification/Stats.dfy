/** Probe counters and latency aggregates of src/stats.c, refined to the history of samples. */
module Stats {
  import opened Base

  const NO_SAMPLE: U64 := U64_MAX

  /**
   * A round trip in whole microseconds. It is converted from a double, and the doubles just below
   * 2^64 are multiples of 2048, so it is never the value that marks "no sample".
   */
  type Latency = x: int | 0 <= x < U64_MAX

  /** One recorded probe: its round trip, or a loss. */
  datatype Sample = Answered(latencyUs: Latency) | Lost

  datatype Totals = Totals(ok: U64, failed: U64, sumUs: U64, minUs: U64, maxUs: U64)

  const INITIAL := Totals(0, 0, 0, NO_SAMPLE, NO_SAMPLE)

  function Add(t: Totals, x: Sample): Totals {
    match x
    case Lost => t.(failed := AddSat(t.failed, 1))
    case Answered(us) =>
      t.(ok := AddSat(t.ok, 1),
         sumUs := AddSat(t.sumUs, us),
         minUs := if us < t.minUs then us else t.minUs,
         maxUs := if t.maxUs == NO_SAMPLE || us > t.maxUs then us else t.maxUs)
  }

  /** The totals after a history of samples. */
  function After(h: seq<Sample>): Totals {
    if h == [] then INITIAL else Add(After(h[..|h| - 1]), h[|h| - 1])
  }

  // ---- The history the totals stand for, in unbounded integers ----

  function CountOk(h: seq<Sample>): nat {
    if h == [] then 0 else CountOk(h[..|h| - 1]) + (if h[|h| - 1].Answered? then 1 else 0)
  }

  function Sum(h: seq<Sample>): nat {
    if h == [] then 0 else Sum(h[..|h| - 1]) + (if h[|h| - 1].Answered? then h[|h| - 1].latencyUs else 0)
  }

  predicate Within(h: seq<Sample>, lo: int, hi: int) {
    forall x :: x in h && x.Answered? ==> lo <= x.latencyUs <= hi
  }

  /** lo and hi are the least and the greatest latency of h. */
  predicate Extremes(h: seq<Sample>, lo: U64, hi: U64) {
    && lo < NO_SAMPLE && hi < NO_SAMPLE && Answered(lo) in h && Answered(hi) in h
    && Within(h, lo, hi)
  }

  lemma {:induction false} CountBound(h: seq<Sample>)
    ensures CountOk(h) <= |h|
    ensures CountOk(h) == 0 <==> forall i :: 0 <= i < |h| ==> h[i].Lost?
  {
    if h != [] {
      CountBound(h[..|h| - 1]);
    }
  }

  /**
   * Over any history the saturating counters are the true totals clamped to uint64, and the
   * minimum and maximum are those of the samples (or the sentinel before the first success).
   */
  lemma Refines(h: seq<Sample>)
    ensures var t := After(h);
            && t.ok == Min(CountOk(h), U64_MAX)
            && t.failed == Min(|h| - CountOk(h), U64_MAX)
            && t.sumUs == Min(Sum(h), U64_MAX)
            && (if CountOk(h) == 0 then t.minUs == t.maxUs == NO_SAMPLE else Extremes(h, t.minUs, t.maxUs))
  {
    Clamped(h);
    ExtremesTracked(h);
  }

  lemma {:induction false} ExtremesTracked(h: seq<Sample>)
    ensures var t := After(h);
            if CountOk(h) == 0 then t.minUs == t.maxUs == NO_SAMPLE else Extremes(h, t.minUs, t.maxUs)
  {
    if h != [] {
      var p, x := h[..|h| - 1], h[|h| - 1];
      ExtremesTracked(p);
      assert h == p + [x];
      if CountOk(p) == 0 {
        CountBound(p);
      }
    }
  }

  lemma {:induction false} Clamped(h: seq<Sample>)
    ensures CountOk(h) <= |h|
    ensures var t := After(h);
            && t.ok == Min(CountOk(h), U64_MAX)
            && t.failed == Min(|h| - CountOk(h), U64_MAX)
            && t.sumUs == Min(Sum(h), U64_MAX)
  {
    if h != [] {
      Clamped(h[..|h| - 1]);
    }
  }

  /** Absent saturation the accumulators keep min <= average <= max. */
  lemma AverageBetween(h: seq<Sample>)
    requires CountOk(h) > 0 && Sum(h) <= U64_MAX && CountOk(h) <= U64_MAX
    ensures var t := After(h); t.minUs * t.ok <= t.sumUs <= t.maxUs * t.ok
  {
    Refines(h);
    SumBetween(h, After(h).minUs, After(h).maxUs);
  }

  lemma {:induction false} SumBetween(h: seq<Sample>, lo: nat, hi: nat)
    requires Within(h, lo, hi)
    ensures lo * CountOk(h) <= Sum(h) <= hi * CountOk(h)
  {
    if h != [] {
      SumBetween(h[..|h| - 1], lo, hi);
      OneMore(lo, CountOk(h[..|h| - 1]));
      OneMore(hi, CountOk(h[..|h| - 1]));
    }
  }

  lemma OneMore(x: nat, n: nat)
    ensures x * (n + 1) == x * n + x
  {
  }

  /** The accumulator that app.c embeds. */
  class Recorder {
    var totals: Totals

    constructor ()
      ensures totals == After([])
    {
      totals := INITIAL;
    }

    method AddOk(latencyUs: Latency)
      modifies this
      ensures totals == Add(old(totals), Answered(latencyUs))
    {
      var t := totals;
      t := t.(ok := AddSat(t.ok, 1));
      t := t.(sumUs := AddSat(t.sumUs, latencyUs));
      if latencyUs < t.minUs {
        t := t.(minUs := latencyUs);
      }
      if t.maxUs == NO_SAMPLE || latencyUs > t.maxUs {
        t := t.(maxUs := latencyUs);
      }
      totals := t;
    }

    method AddFail()
      modifies this
      ensures totals == Add(old(totals), Lost)
    {
      totals := totals.(failed := AddSat(totals.failed, 1));
    }
  }
}

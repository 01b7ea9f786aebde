/** The sd_notify channel of src/notify.c: status de-duplication and the watchdog interval. */
module Notify {
  import opened Base

  const STATUS_SIZE: nat := 240
  const DEDUP_WINDOW_MS: int := 2000

  /** A C buffer of STATUS_SIZE bytes keeps one less character. */
  function Clip(text: string): (s: string)
    ensures |s| < STATUS_SIZE
  {
    if |text| < STATUS_SIZE then text else text[..STATUS_SIZE - 1]
  }

  /** The receiver shows the text: all of it, or its first 239 characters. */
  predicate Shows(receiver: Option<string>, text: string) {
    receiver.Some? && receiver.value <= text && |receiver.value| == Min(|text|, 239)
  }

  /** One status request: its text, the clock reading (UINT64_MAX on failure), and whether a send would succeed. */
  datatype Request = Request(text: string, now: U64, sendOk: bool)

  /** The channel with, beside it, what its receiver shows and every message that was sent. */
  class Channel {
    var isOpen: bool
    var lastStatus: string
    var lastStatusMs: U64
    ghost var receiver: Option<string>
    ghost var sent: seq<string>

    ghost predicate Valid()
      reads this
    {
      lastStatusMs != 0 ==> receiver == Some(lastStatus)
    }

    constructor (isOpen: bool)
      ensures Valid() && this.isOpen == isOpen && receiver == None && sent == []
    {
      this.isOpen := isOpen;
      lastStatus, lastStatusMs, receiver, sent := "", 0, None, [];
    }

    /** The receiver was told this text at a known time less than two seconds ago, in uint64 arithmetic. */
    ghost predicate Repeats(r: Request)
      reads this
    {
      && lastStatusMs != 0 && r.now != 0xFFFF_FFFF_FFFF_FFFF
      && (r.now - lastStatusMs) % 0x1_0000_0000_0000_0000 < 2000
      && Shows(receiver, r.text)
    }

    /**
     * A status request that reports success leaves the receiver showing the requested text, whether
     * or not a message was sent; one that fails leaves the receiver as it was. Exactly the requests
     * that repeat a recent status are answered without sending; every other one on an open channel
     * is sent once, if the socket takes it, and then counts as told at its clock reading.
     */
    method Status(r: Request) returns (ok: bool)
      requires Valid()
      modifies this
      ensures Valid() && isOpen == old(isOpen)
      ensures ok <==> isOpen && (r.sendOk || old(Repeats(r)))
      ensures ok ==> Shows(receiver, r.text)
      ensures !ok || old(Repeats(r)) ==>
                receiver == old(receiver) && sent == old(sent) && lastStatusMs == old(lastStatusMs)
      ensures ok && !old(Repeats(r)) ==>
                && sent == old(sent) + ["STATUS=" + receiver.value]
                && lastStatusMs == (if r.now == 0xFFFF_FFFF_FFFF_FFFF then 0 else r.now)
    {
      if !isOpen {
        return false;
      }
      var status := Clip(r.text);
      // uint64 subtraction wraps when the clock reads before the last status.
      var elapsed := if r.now >= lastStatusMs then r.now - lastStatusMs
                     else r.now - lastStatusMs + U64_MAX + 1;
      if lastStatus == status && lastStatusMs != 0 && r.now != U64_MAX && elapsed < DEDUP_WINDOW_MS {
        return true;
      }
      ok := r.sendOk;
      if ok {
        receiver, sent := Some(status), sent + ["STATUS=" + status];
        lastStatus := status;
        lastStatusMs := if r.now == U64_MAX then 0 else r.now;
      }
    }

    /**
     * Over any sequence of requests the receiver ends up showing what a channel without the cache
     * would have left it, which is also the last text that was reported delivered.
     */
    method StatusAll(rs: seq<Request>) returns (oks: seq<bool>)
      requires Valid()
      modifies this
      ensures Valid() && isOpen == old(isOpen) && |oks| == |rs|
      ensures LeftShowing(receiver, Uncached(rs, isOpen), old(receiver))
      ensures LeftShowing(receiver, Latest(rs, oks), old(receiver))
      ensures forall i :: 0 <= i < |rs| ==> (isOpen && rs[i].sendOk ==> oks[i]) && (oks[i] ==> isOpen)
    {
      oks := [];
      for i := 0 to |rs|
        invariant Valid() && isOpen == old(isOpen) && |oks| == i
        invariant LeftShowing(receiver, Uncached(rs[..i], isOpen), old(receiver))
        invariant LeftShowing(receiver, Latest(rs[..i], oks), old(receiver))
        invariant forall k :: 0 <= k < i ==> (isOpen && rs[k].sendOk ==> oks[k]) && (oks[k] ==> isOpen)
      {
        var ok := Status(rs[i]);
        oks := oks + [ok];
        assert rs[..i + 1][..i] == rs[..i] && oks[..i] == oks[..|oks| - 1];
      }
      assert rs[..|rs|] == rs;
    }
  }

  /** The receiver shows the text, or what it showed before if there was none. */
  predicate LeftShowing(receiver: Option<string>, text: Option<string>, before: Option<string>) {
    if text.Some? then Shows(receiver, text.value) else receiver == before
  }

  /** The last text that a channel which sends every request gets through. */
  ghost function Uncached(rs: seq<Request>, isOpen: bool): Option<string> {
    if rs == [] then None
    else
      var last := rs[|rs| - 1];
      if isOpen && last.sendOk then Some(last.text) else Uncached(rs[..|rs| - 1], isOpen)
  }

  /** The text of the last request that was answered with success. */
  ghost function Latest(rs: seq<Request>, oks: seq<bool>): Option<string>
    requires |rs| == |oks|
  {
    if rs == [] then None
    else if oks[|oks| - 1] then Some(rs[|rs| - 1].text)
    else Latest(rs[..|rs| - 1], oks[..|oks| - 1])
  }

  /**
   * The heartbeat interval: zero exactly when no watchdog is requested. Two intervals fit in the
   * systemd deadline exactly when that deadline is at least two milliseconds.
   */
  function WatchdogIntervalMs(isOpen: bool, usec: U64): (ms: U64)
    ensures ms == 0 <==> !isOpen || usec == 0
    ensures ms != 0 ==> (2 * ms * 1000 <= usec <==> usec >= 2000)
    ensures ms != 0 && usec < 2000 ==> ms == 1
    ensures ms != 0 && usec >= 2000 ==> usec < 2 * (ms + 1) * 1000
  {
    if !isOpen || usec == 0 then 0
    else
      var ms := usec / (MS_PER_SEC * 2);
      if ms == 0 then 1 else ms
  }
}

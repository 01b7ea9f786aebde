/** Receiving and the bounded drain of src/app.c, with and without the kernel filter in front. */
module Drain {
  import opened Base
  import opened Icmp
  import Bpf

  const RECV_BUFFER: nat := 1500
  const MAX_DRAIN: nat := 32

  /** One entry of the socket's receive queue; running past the end is "no more". */
  datatype Arrival = Packet(from: Address, bytes: seq<Byte>) | Broken

  datatype RecvStatus = Ignored | Matched | RecvError

  datatype Expected = Expected(dest: Address, id: U16, sequence: U16)

  datatype Verdict = NoMatch | Found(from: Address, seen: seq<Byte>) | Fatal

  /** recvfrom(2) truncates to the receive buffer. */
  function Seen(bytes: seq<Byte>): seq<Byte> {
    if |bytes| <= RECV_BUFFER then bytes else bytes[..RECV_BUFFER]
  }

  function Receive(x: Expected, a: Arrival): RecvStatus {
    match a
    case Broken => RecvError
    case Packet(from, bytes) =>
      var b := Seen(bytes);
      if b == [] || from != x.dest then Ignored
      else if ReplyMatches(b, x.dest.family, x.id, x.sequence) then Matched
      else Ignored
  }

  /** An arrival that ends a drain: a receive error, or a match while a probe is outstanding. */
  predicate Decisive(x: Expected, outstanding: bool, a: Arrival) {
    var r := Receive(x, a);
    r == RecvError || (r == Matched && outstanding)
  }

  function VerdictOf(a: Arrival): Verdict {
    match a case Broken => Fatal case Packet(from, bytes) => Found(from, Seen(bytes))
  }

  /** A packet from the target that delivers the echo reply with the expected identifier and sequence. */
  predicate Answers(x: Expected, a: Arrival) {
    a.Packet? && a.from == x.dest && Delivers(x.dest.family, a.bytes, x.id, x.sequence)
  }

  /** Receiving recognises exactly those packets; truncation to the receive buffer cannot hide one. */
  lemma ReceiveExactly(x: Expected, a: Arrival)
    ensures Receive(x, a) == RecvError <==> a.Broken?
    ensures Receive(x, a) == Matched <==> Answers(x, a)
  {
    if a.Packet? {
      var b := Seen(a.bytes);
      MatchExactly(b, x.dest.family, x.id, x.sequence);
      if |a.bytes| > RECV_BUFFER {
        DeliveredEarly(x.dest.family, a.bytes, RECV_BUFFER, x.id, x.sequence);
      }
    }
  }

  /**
   * The peer's answer to a request that is on the wire is received as a match when it comes from
   * the target, behind every delivery prefix and for every length, and not when it does not.
   */
  lemma AnswerReceived(x: Expected, from: Address, request: seq<Byte>, h: seq<Byte>, c0: Byte, c1: Byte)
    requires OnTheWire(x.dest.family, x.id, x.sequence, request) && DeliveryPrefix(x.dest.family, h)
    ensures var a := Packet(from, h + ReplyTo(x.dest.family, request, c0, c1));
            Receive(x, a) == (if from == x.dest then Matched else Ignored)
  {
    AnswerDelivers(x.dest.family, x.id, x.sequence, request, h, c0, c1);
    ReceiveExactly(x, Packet(from, h + ReplyTo(x.dest.family, request, c0, c1)));
  }

  /** The position of the first arrival that satisfies d, or the length of the queue. */
  function FirstSuch(d: Arrival -> bool, q: seq<Arrival>): (i: nat)
    ensures i <= |q|
  {
    if q == [] || d(q[0]) then 0 else 1 + FirstSuch(d, q[1..])
  }

  lemma {:induction false} FirstSuchMeaning(d: Arrival -> bool, q: seq<Arrival>)
    ensures var i := FirstSuch(d, q);
            (forall k :: 0 <= k < i ==> !d(q[k])) && (i < |q| ==> d(q[i]))
  {
    if q != [] && !d(q[0]) {
      FirstSuchMeaning(d, q[1..]);
    }
  }

  function Decides(x: Expected, outstanding: bool): Arrival -> bool {
    a => Decisive(x, outstanding, a)
  }

  function First(x: Expected, outstanding: bool, q: seq<Arrival>): (i: nat)
    ensures i <= |q|
    ensures forall k :: 0 <= k < i ==> !Decisive(x, outstanding, q[k])
    ensures i < |q| ==> Decisive(x, outstanding, q[i])
  {
    FirstSuchMeaning(Decides(x, outstanding), q);
    FirstSuch(Decides(x, outstanding), q)
  }

  /** A drain acts on the first decisive arrival if it is among the first 32. */
  function Verdict32(x: Expected, outstanding: bool, q: seq<Arrival>): Verdict {
    var i := First(x, outstanding, q);
    if i < |q| && i < MAX_DRAIN then VerdictOf(q[i]) else NoMatch
  }

  /** A receive error, or an answer while a probe is outstanding. */
  predicate Settles(x: Expected, outstanding: bool, a: Arrival) {
    a.Broken? || (outstanding && Answers(x, a))
  }

  predicate FirstToSettle(x: Expected, outstanding: bool, q: seq<Arrival>, k: nat) {
    k < |q| && Settles(x, outstanding, q[k]) && forall j :: 0 <= j < k ==> !Settles(x, outstanding, q[j])
  }

  lemma DecisiveExactly(x: Expected, outstanding: bool, a: Arrival)
    ensures Decisive(x, outstanding, a) <==> Settles(x, outstanding, a)
  {
    ReceiveExactly(x, a);
  }

  lemma FirstExactly(x: Expected, outstanding: bool, q: seq<Arrival>)
    ensures forall k: nat :: FirstToSettle(x, outstanding, q, k) <==> k == First(x, outstanding, q) < |q|
    ensures forall k :: 0 <= k < First(x, outstanding, q) ==> !Settles(x, outstanding, q[k])
  {
    forall k | 0 <= k < |q|
      ensures Decisive(x, outstanding, q[k]) <==> Settles(x, outstanding, q[k])
    {
      DecisiveExactly(x, outstanding, q[k]);
    }
  }

  /** The verdict that the k-th arrival settles: an error, or its sender and first 1500 bytes. */
  predicate SettledBy(a: Arrival, v: Verdict) {
    if a.Broken? then v == Fatal
    else v.Found? && v.from == a.from && v.seen <= a.bytes && |v.seen| == Min(|a.bytes|, 1500)
  }

  /** The first arrival that settles the drain does so if it is among the first 32, and nothing else does. */
  ghost predicate Settled(x: Expected, outstanding: bool, q: seq<Arrival>, v: Verdict) {
    && (v == NoMatch <==> forall k :: 0 <= k < |q| && k < 32 ==> !Settles(x, outstanding, q[k]))
    && (forall k: nat :: FirstToSettle(x, outstanding, q, k) && k < 32 ==> SettledBy(q[k], v))
  }

  lemma VerdictExactly(x: Expected, outstanding: bool, q: seq<Arrival>)
    ensures Settled(x, outstanding, q, Verdict32(x, outstanding, q))
  {
    FirstExactly(x, outstanding, q);
    var i := First(x, outstanding, q);
    assert i < |q| ==> FirstToSettle(x, outstanding, q, i);
  }

  /**
   * The drain loop: at most 32 receives, stopping at the first match or error. The result is
   * settled by the first arrival among them that is an error or answers the outstanding probe.
   */
  method Scan(x: Expected, outstanding: bool, q: seq<Arrival>) returns (v: Verdict)
    ensures v == Verdict32(x, outstanding, q)
    ensures Settled(x, outstanding, q, v)
  {
    v := NoMatch;
    for i := 0 to MAX_DRAIN
      invariant v == NoMatch && i <= |q|
      invariant forall k :: 0 <= k < i ==> !Decisive(x, outstanding, q[k])
    {
      if i == |q| {
        break;
      }
      var status := Receive(x, q[i]);
      if status == RecvError {
        v := Fatal;
        break;
      }
      if status == Matched && outstanding {
        v := Found(q[i].from, Seen(q[i].bytes));
        break;
      }
    }
    assert v == Verdict32(x, outstanding, q);
    VerdictExactly(x, outstanding, q);
  }

  /** An answer or error is left waiting exactly when at least 32 other arrivals came before the first one. */
  lemma DrainMisses(x: Expected, outstanding: bool, q: seq<Arrival>)
    ensures Verdict32(x, outstanding, q) == NoMatch && (exists k :: 0 <= k < |q| && Settles(x, outstanding, q[k]))
            <==> exists k: nat :: k >= 32 && FirstToSettle(x, outstanding, q, k)
  {
    FirstExactly(x, outstanding, q);
    VerdictExactly(x, outstanding, q);
    var i := First(x, outstanding, q);
    if i < |q| {
      assert FirstToSettle(x, outstanding, q, i) && Settles(x, outstanding, q[i]);
    }
  }

  // ---- The filtered queue ----

  predicate Passes(family: Family, a: Arrival) {
    a.Packet? ==> Bpf.Kept(family, a.bytes) != 0
  }

  /** The filter trims a packet to the length it returns. */
  function Trim(family: Family, a: Arrival): Arrival {
    match a
    case Broken => a
    case Packet(from, bytes) =>
      var n := Bpf.Kept(family, bytes);
      Packet(from, if |bytes| <= n then bytes else bytes[..n])
  }

  /** The arrivals that pass, each passed on through `trim`. */
  function Sieve(passes: Arrival -> bool, trim: Arrival -> Arrival, q: seq<Arrival>): seq<Arrival> {
    if q == [] then []
    else (if passes(q[0]) then [trim(q[0])] else []) + Sieve(passes, trim, q[1..])
  }

  function Passing(family: Family): Arrival -> bool {
    a => Passes(family, a)
  }

  function Trimming(family: Family): Arrival -> Arrival {
    a => Trim(family, a)
  }

  function Filtered(family: Family, q: seq<Arrival>): seq<Arrival> {
    Sieve(Passing(family), Trimming(family), q)
  }

  /** Trimming changes nothing the drain can see, and the filter drops nothing decisive. */
  lemma FilterKeepsDecisive(x: Expected, outstanding: bool, a: Arrival)
    ensures Decisive(x, outstanding, a) ==> Passes(x.dest.family, a)
    ensures Passes(x.dest.family, a) ==>
              && Decisive(x, outstanding, Trim(x.dest.family, a)) == Decisive(x, outstanding, a)
              && VerdictOf(Trim(x.dest.family, a)) == VerdictOf(a)
  {
    if a.Packet? {
      var family := x.dest.family;
      Bpf.FilterMeaning(family, a.bytes);
      var seen := Min(|a.bytes|, RECV_BUFFER);
      assert Seen(a.bytes) == a.bytes[..seen];
      if Decisive(x, outstanding, a) {
        Bpf.FilterKeepsReplies(family, a.bytes, seen, x.id, x.sequence);
      }
      if Passes(family, a) {
        assert Seen(Trim(family, a).bytes) == Seen(a.bytes);
      }
    }
  }

  /**
   * A sieve that passes every decisive arrival, and whose trimming neither makes nor unmakes one,
   * keeps the first decisive arrival, no later than before, and makes none out of nothing.
   */
  lemma {:induction false} FirstSurvives(d: Arrival -> bool, passes: Arrival -> bool, trim: Arrival -> Arrival,
                                         q: seq<Arrival>)
    requires forall a :: a in q ==> (d(a) ==> passes(a)) && (passes(a) ==> d(trim(a)) == d(a))
    ensures var f := Sieve(passes, trim, q);
            var i, j := FirstSuch(d, q), FirstSuch(d, f);
            && j <= i
            && (i < |q| <==> j < |f|)
            && (i < |q| ==> f[j] == trim(q[i]) && passes(q[i]))
  {
    if q != [] {
      var a, f, g := q[0], Sieve(passes, trim, q), Sieve(passes, trim, q[1..]);
      if d(a) {
        FirstOfCons(d, trim(a), g);
        assert f == [trim(a)] + g;
      } else {
        FirstSurvives(d, passes, trim, q[1..]);
        if passes(a) {
          FirstOfCons(d, trim(a), g);
          assert f == [trim(a)] + g;
        } else {
          assert f == g;
        }
      }
    }
  }

  lemma FirstOfCons(d: Arrival -> bool, a: Arrival, q: seq<Arrival>)
    ensures FirstSuch(d, [a] + q) == if d(a) then 0 else 1 + FirstSuch(d, q)
  {
    assert ([a] + q)[1..] == q;
  }

  /**
   * Filtering never loses a verdict: a reply or error that the unfiltered drain finds, the
   * filtered drain finds too. The two drains differ exactly when the filter moved the first
   * decisive arrival from behind the 32-receive budget to inside it.
   */
  lemma FilterTransparent(x: Expected, outstanding: bool, q: seq<Arrival>)
    ensures var f := Filtered(x.dest.family, q);
            var i, j := First(x, outstanding, q), First(x, outstanding, f);
            && (Verdict32(x, outstanding, q) != NoMatch ==>
                  Verdict32(x, outstanding, f) == Verdict32(x, outstanding, q))
            && (Verdict32(x, outstanding, f) == Verdict32(x, outstanding, q)
                <==> !(i < |q| && i >= 32 && j < 32))
            && (|q| <= 32 ==> Verdict32(x, outstanding, f) == Verdict32(x, outstanding, q))
  {
    var family := x.dest.family;
    var d, passes, trim := Decides(x, outstanding), Passing(family), Trimming(family);
    forall a | a in q
      ensures (d(a) ==> passes(a)) && (passes(a) ==> d(trim(a)) == d(a) && VerdictOf(trim(a)) == VerdictOf(a))
    {
      FilterKeepsDecisive(x, outstanding, a);
    }
    FirstSurvives(d, passes, trim, q);
  }

  // ---- Queues on which the drains differ ----

  /** Packets the filter drops, in front of a packet it keeps. */
  lemma {:induction false} StraysFiltered(family: Family, strays: seq<Arrival>, reply: Arrival)
    requires forall a :: a in strays ==> !Passes(family, a)
    requires Passes(family, reply)
    ensures Filtered(family, strays + [reply]) == [Trim(family, reply)]
  {
    var q := strays + [reply];
    if strays == [] {
      assert q == [reply] && q[1..] == [];
      assert Sieve(Passing(family), Trimming(family), q[1..]) == [];
    } else {
      assert q[0] == strays[0] && q[1..] == strays[1..] + [reply];
      StraysFiltered(family, strays[1..], reply);
    }
  }

  /**
   * Behind 32 or more packets that the filter drops, of whatever target, identifier and sequence,
   * the plain drain misses the reply it was waiting for; the filtered drain finds it.
   */
  lemma FloodHidesReply(x: Expected, strays: seq<Arrival>, reply: Arrival)
    requires |strays| >= 32 && forall a :: a in strays ==> !Passes(x.dest.family, a)
    requires Answers(x, reply)
    ensures Verdict32(x, true, strays + [reply]) == NoMatch
    ensures SettledBy(reply, Verdict32(x, true, Filtered(x.dest.family, strays + [reply])))
  {
    ReceiveExactly(x, reply);
    var family := x.dest.family;
    var q := strays + [reply];
    FilterKeepsDecisive(x, true, reply);
    StraysFiltered(family, strays, reply);
    forall k | 0 <= k < |strays|
      ensures !Decisive(x, true, q[k])
    {
      assert q[k] == strays[k] && strays[k] in strays;
      FilterKeepsDecisive(x, true, strays[k]);
    }
    assert q[|strays|] == reply && Decisive(x, true, reply);
    var f := [Trim(family, reply)];
    assert First(x, true, f) == 0;
  }
}

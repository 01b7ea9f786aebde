/** Echo request construction, sequence numbers and reply matching of src/icmp.c. */
module Icmp {
  import opened Base
  import opened Checksum

  datatype Family = V4 | V6
  datatype Address = Address(family: Family, bytes: seq<Byte>)
  datatype SendStatus = SendOk | SendUnreachable | SendError

  /** What sendto(2) reported once it was no longer interrupted. */
  datatype KernelSend = Accepted(sent: nat) | Refused(errno: int)

  const ECHO_HEADER: nat := 8
  const IP_HEADER: nat := 20
  const SEND_BUFFER: nat := 256
  const IPPROTO_ICMP: Byte := 1

  const ENETUNREACH: int := 101

  // Routing, link and buffer conditions by their Linux error numbers: ENETUNREACH, EHOSTUNREACH,
  // ENETDOWN, EHOSTDOWN, ENETRESET, ENOBUFS, EAGAIN.
  const NETWORK_CONDITIONS: set<int> := {ENETUNREACH, 113, 100, 112, 102, 105, 11}

  function RequestType(family: Family): Byte {
    match family case V4 => 8 case V6 => 128
  }

  function ReplyType(family: Family): Byte {
    match family case V4 => 0 case V6 => 129
  }

  function StatusOf(kernel: KernelSend, packetLen: nat): SendStatus {
    match kernel
    case Refused(errno) => if errno in NETWORK_CONDITIONS then SendUnreachable else SendError
    case Accepted(sent) => if sent == packetLen then SendOk else SendError
  }

  /** Unreachable for the seven routing, link and buffer conditions; ok only for a send of the whole packet. */
  lemma SendStatusExactly(kernel: KernelSend, packetLen: nat)
    ensures StatusOf(kernel, packetLen) == SendUnreachable <==>
            kernel.Refused? && kernel.errno in {101, 113, 100, 112, 102, 105, 11}
    ensures StatusOf(kernel, packetLen) == SendOk <==> kernel == Accepted(packetLen)
  {
  }

  // ---- Sequence numbers ----

  function NextSequence(s: U16): (r: U16)
    ensures r != 0
  {
    if s == 0xFFFF then 1 else s + 1
  }

  /** The sequence number after n advances from the initial zero. */
  function SequenceAfter(n: nat): U16 {
    if n == 0 then 0 else NextSequence(SequenceAfter(n - 1))
  }

  /** Sequence numbers run through 1 to 65535 and wrap to 1, never to 0. */
  lemma {:induction false} SequenceClosedForm(n: nat)
    ensures SequenceAfter(n) == if n == 0 then 0 else (n - 1) % 0xFFFF + 1
  {
    if n > 1 {
      SequenceClosedForm(n - 1);
      NextResidue(n - 2);
    }
  }

  lemma NextResidue(a: nat)
    ensures (a + 1) % 0xFFFF == if a % 0xFFFF == 0xFFFE then 0 else a % 0xFFFF + 1
  {
    var q, r := a / 0xFFFF, a % 0xFFFF;
    assert a + 1 == q * 0xFFFF + (r + 1);
    ModShift(r + 1, q);
  }

  /** Two sends carry one sequence number exactly when they are a multiple of 65535 sends apart. */
  lemma SequencesCollide(m: nat, n: nat)
    requires m > 0 && n > 0
    ensures SequenceAfter(m) == SequenceAfter(n) <==> (n - m) % 0xFFFF == 0
  {
    SequenceClosedForm(m);
    SequenceClosedForm(n);
    var a, b: nat := m - 1, n - 1;
    SameResidue(a, b);
    assert b - a == n - m;
  }

  lemma SameResidue(a: nat, b: nat)
    ensures a % 0xFFFF == b % 0xFFFF <==> (b - a) % 0xFFFF == 0
  {
    var q, r := a / 0xFFFF, a % 0xFFFF;
    var q', r' := b / 0xFFFF, b % 0xFFFF;
    assert b - a == (q' - q) * 0xFFFF + (r' - r);
    ModShift(r' - r, q' - q);
  }

  // ---- Echo requests ----

  function Header(kind: Byte, checksum: seq<Byte>, id: U16, sequence: U16): (h: seq<Byte>)
    requires |checksum| == 2
    ensures |h| == ECHO_HEADER
  {
    [kind, 0] + checksum + NetworkOrder(id) + NetworkOrder(sequence)
  }

  function Payload(n: nat): (p: seq<Byte>)
    ensures |p| == n
  {
    seq(n, i requires 0 <= i => i % 256)
  }

  /** An echo request whose checksum field is still zero. */
  function Unsealed(family: Family, id: U16, sequence: U16, len: nat): (p: seq<Byte>)
    requires len >= ECHO_HEADER
    ensures |p| == len
  {
    Header(RequestType(family), [0, 0], id, sequence) + Payload(len - ECHO_HEADER)
  }

  /** The request on the wire: RFC 1071 checksum for IPv4, left to the kernel for IPv6. */
  function EchoRequest(family: Family, id: U16, sequence: U16, len: nat): (p: seq<Byte>)
    requires len >= ECHO_HEADER
    ensures |p| == len
  {
    var blank := Unsealed(family, id, sequence, len);
    if family == V6 then blank
    else blank[..2] + NetworkOrder(RfcChecksum(blank)) + blank[4..]
  }

  /**
   * An echo request as section "Echo or Echo Reply Message" of RFC 792 and section 4.1 of RFC 4443
   * lay it out, with counting bytes as data. The IPv4 checksum verifies; for IPv6 it is left zero.
   */
  predicate OnTheWire(family: Family, id: U16, sequence: U16, b: seq<Byte>) {
    && |b| >= 8
    && b[0] == (if family == V4 then 8 else 128) && b[1] == 0
    && b[4] == id / 256 && b[5] == id % 256 && b[6] == sequence / 256 && b[7] == sequence % 256
    && (forall k :: 8 <= k < |b| ==> b[k] == (k - 8) % 256)
    && (if family == V4 then RfcChecksum(b) == 0 else b[2] == 0 && b[3] == 0)
  }

  lemma RequestOnTheWire(family: Family, id: U16, sequence: U16, len: nat)
    requires len >= 8
    ensures OnTheWire(family, id, sequence, EchoRequest(family, id, sequence, len))
  {
    var p, blank := EchoRequest(family, id, sequence, len), Unsealed(family, id, sequence, len);
    assert p[0] == blank[0] && p[1] == blank[1];
    assert forall k :: 4 <= k < len ==> p[k] == blank[k];
    if family == V4 {
      EchoRequestVerifies(id, sequence, len);
    }
  }

  /** Every IPv4 request verifies: the receiver's checksum over the finished packet is zero. */
  lemma EchoRequestVerifies(id: U16, sequence: U16, len: nat)
    requires len >= ECHO_HEADER
    ensures var p := EchoRequest(V4, id, sequence, len);
            && RfcChecksum(p) == 0
            && Fold(NativeSum(p)) == 0xFFFF
            && (len <= SEND_BUFFER ==> NativeSum(p) < U32_SIZE)
  {
    var blank := Unsealed(V4, id, sequence, len);
    var p := EchoRequest(V4, id, sequence, len);
    WireBytes(blank);
    var c: U16 := 0xFFFF - Fold(NativeSum(blank));
    assert p[2..4] == StoredNatively(c);
    assert blank[2] == 0 && blank[3] == 0;
    SumOfFirstWords(blank);
    SumOfFirstWords(p);
    assert p[4..] == blank[4..];
    SealedSumIsZero(blank, p);
    SumBound(p);
  }

  lemma SumOfFirstWords(b: seq<Byte>)
    requires |b| >= 4
    ensures NativeSum(b) == b[0] + 256 * b[1] + b[2] + 256 * b[3] + NativeSum(b[4..])
  {
    assert b[2..][2..] == b[4..];
  }

  /** The transport: the advancing sequence number and the reused send buffer. */
  class Transport {
    const family: Family
    var isOpen: bool
    var sequence: U16
    const sendBuf: array<Byte>

    ghost predicate Valid()
      reads this
    {
      sendBuf.Length == SEND_BUFFER
    }

    constructor (family: Family)
      ensures Valid() && fresh(sendBuf) && isOpen && sequence == 0 && this.family == family
    {
      this.family := family;
      isOpen, sequence := true, 0;
      sendBuf := new Byte[SEND_BUFFER](_ => 0);
    }

    /** Writes the payload pattern after the header. */
    method FillPayload(packetLen: nat)
      requires Valid() && ECHO_HEADER <= packetLen <= SEND_BUFFER
      modifies sendBuf
      ensures sendBuf[..8] == old(sendBuf[..8])
      ensures sendBuf[ECHO_HEADER..packetLen] == Payload(packetLen - ECHO_HEADER)
      ensures forall k :: 8 <= k < packetLen ==> sendBuf[k] == (k - 8) % 256
      ensures sendBuf[packetLen..] == old(sendBuf[packetLen..])
    {
      for i := 0 to packetLen - ECHO_HEADER
        invariant sendBuf[..ECHO_HEADER] == old(sendBuf[..ECHO_HEADER])
        invariant forall k :: 0 <= k < i ==> sendBuf[ECHO_HEADER + k] == k % 256
        invariant sendBuf[packetLen..] == old(sendBuf[packetLen..])
      {
        sendBuf[ECHO_HEADER + i] := i % 256;
      }
    }

    /** Writes the header with a zero checksum field. */
    method FillHeader(id: U16)
      requires Valid()
      modifies sendBuf
      ensures sendBuf[..ECHO_HEADER] == Header(RequestType(family), [0, 0], id, sequence)
      ensures sendBuf[..8] == [if family == V4 then 8 else 128, 0, 0, 0,
                               id / 256, id % 256, sequence / 256, sequence % 256]
      ensures sendBuf[8..] == old(sendBuf[8..])
    {
      sendBuf[0], sendBuf[1], sendBuf[2], sendBuf[3] := RequestType(family), 0, 0, 0;
      sendBuf[4], sendBuf[5] := id / 256, id % 256;
      sendBuf[6], sendBuf[7] := sequence / 256, sequence % 256;
    }

    /**
     * Sends one echo request. A closed socket, a wrong family and a size outside 8 to 256 are errors
     * that change nothing. Otherwise the sequence number advances past zero whatever the kernel
     * answers, the buffer holds the request as it must be on the wire, and the answer decides the
     * status.
     */
    method SendEcho(dest: Address, id: U16, packetLen: nat, kernel: KernelSend) returns (status: SendStatus)
      requires Valid()
      modifies this`sequence, sendBuf
      ensures !isOpen || dest.family != family || packetLen < 8 || packetLen > 256 ==>
                && status == SendError && sequence == old(sequence)
                && sendBuf[..] == old(sendBuf[..])
      ensures isOpen && dest.family == family && 8 <= packetLen <= 256 ==>
                && status == StatusOf(kernel, packetLen)
                && (status == SendUnreachable <==>
                      kernel.Refused? && kernel.errno in {101, 113, 100, 112, 102, 105, 11})
                && (status == SendOk <==> kernel == Accepted(packetLen))
                && sequence == NextSequence(old(sequence))
                && sequence == (if old(sequence) == 65535 then 1 else old(sequence) + 1)
                && sendBuf[..packetLen] == EchoRequest(family, id, sequence, packetLen)
                && OnTheWire(family, id, sequence, sendBuf[..packetLen])
                && sendBuf[packetLen..] == old(sendBuf[packetLen..])
    {
      if !isOpen || dest.family != family || packetLen < ECHO_HEADER || packetLen > SEND_BUFFER {
        return SendError;
      }
      sequence := NextSequence(sequence);
      FillHeader(id);
      assert sendBuf[packetLen..] == sendBuf[8..][packetLen - 8..];
      FillPayload(packetLen);
      ghost var blank := Unsealed(family, id, sequence, packetLen);
      assert sendBuf[..packetLen] == sendBuf[..ECHO_HEADER] + sendBuf[ECHO_HEADER..packetLen] == blank;
      if family == V4 {
        var c := Compute(sendBuf[..packetLen]);
        SumBound(blank);
        sendBuf[2], sendBuf[3] := c % 256, c / 256;
        assert sendBuf[..packetLen] == blank[..2] + StoredNatively(c) + blank[4..];
      }
      RequestOnTheWire(family, id, sequence, packetLen);
      SendStatusExactly(kernel, packetLen);
      status := StatusOf(kernel, packetLen);
    }
  }

  // ---- Reply matching ----

  function Word(b: seq<Byte>, at: nat): (w: U16)
    requires at + 1 < |b|
  {
    256 * b[at] as int + b[at + 1] as int
  }

  /** An IPv4 raw socket delivers the IP header first; an IPv6 one delivers ICMPv6 only. */
  predicate ReplyMatches(b: seq<Byte>, family: Family, id: U16, expected: U16) {
    match family
    case V4 =>
      && |b| >= IP_HEADER && b[9] == IPPROTO_ICMP
      && var at := b[0] % 16 * 4;
      && IP_HEADER <= at && at + ECHO_HEADER <= |b|
      && b[at] == ReplyType(V4) && Word(b, at + 4) == id && Word(b, at + 6) == expected
    case V6 =>
      && |b| >= ECHO_HEADER
      && b[0] == ReplyType(V6) && Word(b, 4) == id && Word(b, 6) == expected
  }

  /** What precedes the ICMP message in a delivered packet: an IPv4 header of 20 to 60 bytes, or nothing. */
  predicate DeliveryPrefix(family: Family, h: seq<Byte>) {
    match family
    case V4 => 20 <= |h| <= 60 && |h| == h[0] % 16 * 4 && h[9] == 1
    case V6 => h == []
  }

  /** An echo reply with this identifier and sequence number; its code, checksum and data are not looked at. */
  predicate EchoReply(family: Family, b: seq<Byte>, id: U16, sequence: U16) {
    && |b| >= 8 && b[0] == (if family == V4 then 0 else 129)
    && b[4] == id / 256 && b[5] == id % 256 && b[6] == sequence / 256 && b[7] == sequence % 256
  }

  /** A packet as the socket delivers it: an echo reply behind what precedes it. */
  predicate Delivers(family: Family, packet: seq<Byte>, id: U16, sequence: U16) {
    exists n :: && 0 <= n <= |packet| && DeliveryPrefix(family, packet[..n])
                && EchoReply(family, packet[n..], id, sequence)
  }

  /** A peer's answer: the request with the reply type and whatever checksum the peer computed. */
  function ReplyTo(family: Family, request: seq<Byte>, c0: Byte, c1: Byte): seq<Byte>
    requires |request| >= ECHO_HEADER
  {
    request[0 := if family == V4 then 0 else 129][2 := c0][3 := c1]
  }

  lemma RequestFields(family: Family, id: U16, sequence: U16, len: nat)
    requires len >= ECHO_HEADER
    ensures var p := EchoRequest(family, id, sequence, len);
            p[0] == RequestType(family) && Word(p, 4) == id && Word(p, 6) == sequence
  {
    var p := EchoRequest(family, id, sequence, len);
    var blank := Unsealed(family, id, sequence, len);
    assert forall k :: 4 <= k < ECHO_HEADER ==> p[k] == blank[k];
  }

  lemma WordBytes(b: seq<Byte>, at: nat, w: U16)
    requires at + 1 < |b|
    ensures Word(b, at) == w <==> b[at] == w / 256 && b[at + 1] == w % 256
  {
  }

  /** Behind any delivery prefix the matcher looks at exactly the echo header. */
  lemma MatchBehind(family: Family, h: seq<Byte>, b: seq<Byte>, id: U16, expected: U16)
    requires DeliveryPrefix(family, h) && |b| >= ECHO_HEADER
    ensures ReplyMatches(h + b, family, id, expected)
            <==> EchoReply(family, b, id, expected)
  {
    var n := |h|;
    assert (h + b)[n] == b[0];
    assert Word(h + b, n + 4) == Word(b, 4) && Word(h + b, n + 6) == Word(b, 6);
    WordBytes(b, 4, id);
    WordBytes(b, 6, expected);
    if family == V4 {
      assert (h + b)[0] == h[0] && (h + b)[9] == h[9];
    }
  }

  /**
   * The answer to a request matches exactly that request's identifier and sequence number, behind
   * any legal IPv4 header; the request itself, looped back, matches nothing.
   */
  lemma ReplyRoundTrip(family: Family, id: U16, sequence: U16, len: nat, h: seq<Byte>,
                       c0: Byte, c1: Byte, id': U16, expected: U16)
    requires len >= ECHO_HEADER && DeliveryPrefix(family, h)
    ensures var request := EchoRequest(family, id, sequence, len);
            && (ReplyMatches(h + ReplyTo(family, request, c0, c1), family, id', expected)
                <==> id' == id && expected == sequence)
            && !ReplyMatches(h + request, family, id', expected)
  {
    var request := EchoRequest(family, id, sequence, len);
    var reply := ReplyTo(family, request, c0, c1);
    RequestFields(family, id, sequence, len);
    MatchBehind(family, h, request, id', expected);
    MatchBehind(family, h, reply, id', expected);
    assert Word(reply, 4) == Word(request, 4) && Word(reply, 6) == Word(request, 6);
  }

  /** The matcher accepts exactly the packets that deliver an echo reply with this identifier and sequence. */
  lemma MatchExactly(packet: seq<Byte>, family: Family, id: U16, expected: U16)
    ensures ReplyMatches(packet, family, id, expected) <==> Delivers(family, packet, id, expected)
  {
    forall n | 0 <= n <= |packet| && DeliveryPrefix(family, packet[..n]) && |packet| - n >= 8
      ensures ReplyMatches(packet, family, id, expected) <==> EchoReply(family, packet[n..], id, expected)
    {
      MatchBehind(family, packet[..n], packet[n..], id, expected);
      assert packet[..n] + packet[n..] == packet;
    }
    if ReplyMatches(packet, family, id, expected) {
      var n := if family == V4 then packet[0] % 16 * 4 else 0;
      assert DeliveryPrefix(family, packet[..n]);
      assert EchoReply(family, packet[n..], id, expected);
    }
  }

  lemma HeaderDecides(family: Family, a: seq<Byte>, b: seq<Byte>, id: U16, sequence: U16)
    requires 8 <= |a| <= |b| && a == b[..|a|]
    ensures EchoReply(family, a, id, sequence) <==> EchoReply(family, b, id, sequence)
  {
  }

  /** Cutting a packet behind the echo header that starts at k leaves what the matcher looks at. */
  lemma CutBehind(family: Family, packet: seq<Byte>, n: nat, k: nat, id: U16, sequence: U16)
    requires k + 8 <= n <= |packet|
    ensures packet[..n][..k] == packet[..k]
    ensures EchoReply(family, packet[..n][k..], id, sequence) <==> EchoReply(family, packet[k..], id, sequence)
  {
    assert packet[..n][k..] == packet[k..n] == packet[k..][..n - k];
    HeaderDecides(family, packet[k..n], packet[k..], id, sequence);
  }

  /** A reply delivered within the first 68 bytes is delivered by every longer part of the packet too. */
  lemma DeliveredEarly(family: Family, packet: seq<Byte>, n: nat, id: U16, sequence: U16)
    requires 68 <= n <= |packet|
    ensures Delivers(family, packet[..n], id, sequence) <==> Delivers(family, packet, id, sequence)
  {
    forall k | 0 <= k <= 60
      ensures packet[..n][..k] == packet[..k]
      ensures EchoReply(family, packet[..n][k..], id, sequence) <==> EchoReply(family, packet[k..], id, sequence)
    {
      CutBehind(family, packet, n, k, id, sequence);
    }
  }

  /** The answer to a request on the wire, behind any delivery prefix, delivers exactly that echo reply. */
  lemma AnswerDelivers(family: Family, id: U16, sequence: U16, request: seq<Byte>, h: seq<Byte>, c0: Byte, c1: Byte)
    requires OnTheWire(family, id, sequence, request) && DeliveryPrefix(family, h)
    ensures Delivers(family, h + ReplyTo(family, request, c0, c1), id, sequence)
  {
    var reply := ReplyTo(family, request, c0, c1);
    var packet := h + reply;
    assert packet[..|h|] == h && packet[|h|..] == reply;
  }
}

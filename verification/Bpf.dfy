/** The two kernel socket filters of src/icmp.c under an interpreter for the instructions they use. */
module Bpf {
  import opened Base
  import opened Icmp

  datatype Insn =
    | LoadAbs(k: nat)          // A = packet[k]
    | LoadInd(k: nat)          // A = packet[X + k]
    | And(k: nat)              // A = A & k
    | Mul(k: nat)              // A = A * k
    | Tax                      // X = A
    | Jeq(k: nat, jt: nat, jf: nat)
    | Ret(k: nat)

  function BitAnd(a: nat, b: nat): nat {
    if a == 0 || b == 0 then 0
    else a % 2 * (b % 2) + 2 * BitAnd(a / 2, b / 2)
  }

  /** The number of bytes kept; a load outside the packet drops it. */
  function Exec(prog: seq<Insn>, pc: nat, a: nat, x: nat, packet: seq<Byte>): nat
    decreases |prog| - pc
  {
    if pc >= |prog| then 0
    else
      match prog[pc]
      case LoadAbs(k) => if k < |packet| then Exec(prog, pc + 1, packet[k], x, packet) else 0
      case LoadInd(k) => if x + k < |packet| then Exec(prog, pc + 1, packet[x + k], x, packet) else 0
      case And(k) => Exec(prog, pc + 1, BitAnd(a, k), x, packet)
      case Mul(k) => Exec(prog, pc + 1, a * k % 0x1_0000_0000, x, packet)
      case Tax => Exec(prog, pc + 1, a, a, packet)
      case Jeq(k, jt, jf) => Exec(prog, pc + 1 + (if a == k then jt else jf), a, x, packet)
      case Ret(k) => k
  }

  function Filter(family: Family): seq<Insn> {
    match family
    case V4 =>
      [LoadAbs(0), And(0x0f), Mul(4), Tax, LoadInd(0), Jeq(ReplyType(V4), 0, 1), Ret(0xffff), Ret(0)]
    case V6 =>
      [LoadAbs(0), Jeq(ReplyType(V6), 0, 1), Ret(0xffff), Ret(0)]
  }

  function Kept(family: Family, packet: seq<Byte>): nat {
    Exec(Filter(family), 0, 0, 0, packet)
  }

  /** Where a filter looks for the ICMP type byte. */
  function TypeOffset(family: Family, packet: seq<Byte>): nat
    requires packet != []
  {
    match family case V4 => packet[0] % 16 * 4 case V6 => 0
  }

  lemma LowNibble(a: Byte)
    ensures BitAnd(a, 0x0f) == a % 16
  {
    var a1 := a / 2;
    var a2 := a1 / 2;
    var a3 := a2 / 2;
    assert BitAnd(a3 / 2, 0) == 0;
    assert BitAnd(a3, 1) == a3 % 2;
    assert BitAnd(a2, 3) == a2 % 2 + 2 * (a3 % 2);
    assert BitAnd(a1, 7) == a1 % 2 + 2 * (a2 % 2) + 4 * (a3 % 2);
    assert BitAnd(a, 15) == a % 2 + 2 * (a1 % 2) + 4 * (a2 % 2) + 8 * (a3 % 2);
  }

  /** A filter keeps a packet whole exactly when the byte at the type offset is there and is an echo reply. */
  lemma FilterMeaning(family: Family, packet: seq<Byte>)
    ensures Kept(family, packet) ==
            if packet != [] && TypeOffset(family, packet) < |packet|
               && packet[TypeOffset(family, packet)] == (if family == V4 then 0 else 129)
            then 0xffff else 0
  {
    var prog := Filter(family);
    if packet != [] {
      match family
      case V6 =>
        var t := packet[0];
        assert Exec(prog, 3, t, 0, packet) == 0;
        assert Exec(prog, 2, t, 0, packet) == 0xffff;
        assert Exec(prog, 1, t, 0, packet) == if t == ReplyType(V6) then 0xffff else 0;
      case V4 =>
        LowNibble(packet[0]);
        var at := packet[0] % 16 * 4;
        var a := packet[0] % 16;
        assert Exec(prog, 1, packet[0], 0, packet) == Exec(prog, 2, a, 0, packet);
        assert Exec(prog, 2, a, 0, packet) == Exec(prog, 3, at, 0, packet);
        assert Exec(prog, 3, at, 0, packet) == Exec(prog, 4, at, at, packet);
        if at < |packet| {
          var t := packet[at];
          assert Exec(prog, 7, t, at, packet) == 0;
          assert Exec(prog, 6, t, at, packet) == 0xffff;
          assert Exec(prog, 5, t, at, packet) == if t == ReplyType(V4) then 0xffff else 0;
        }
    }
  }

  /** The filter is transparent: whatever the matcher would accept in a leading part, it lets through. */
  lemma FilterKeepsReplies(family: Family, packet: seq<Byte>, seen: nat, id: U16, expected: U16)
    requires seen <= |packet| && ReplyMatches(packet[..seen], family, id, expected)
    ensures Kept(family, packet) == 0xffff
  {
    FilterMeaning(family, packet);
  }
}

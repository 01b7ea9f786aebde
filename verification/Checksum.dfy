/**
 * The ICMP checksum of src/icmp.c on a little-endian host, proved against the big-endian
 * definition in sections 1 and 2 of RFC 1071.
 */
module Checksum {
  import opened Base

  const U32_SIZE: int := 0x1_0000_0000

  /** A uint32 keeps the remainder. */
  function Wrap32(x: nat): (r: nat)
    ensures r < U32_SIZE && (x < U32_SIZE ==> r == x)
  {
    x % U32_SIZE
  }

  /** Sum of the 16-bit words in network order, an odd last byte padded with zero on the right. */
  function NetworkSum(b: seq<Byte>): nat {
    if |b| == 0 then 0
    else if |b| == 1 then 256 * b[0]
    else 256 * b[0] + b[1] + NetworkSum(b[2..])
  }

  /** Sum of the 16-bit words as a little-endian host reads them, an odd last byte added as is. */
  function NativeSum(b: seq<Byte>): nat {
    if |b| == 0 then 0
    else if |b| == 1 then b[0]
    else b[0] + 256 * b[1] + NativeSum(b[2..])
  }

  /** End-around carry until the sum fits sixteen bits. */
  function Fold(sum: nat): U16
    decreases sum
  {
    if sum < 0x1_0000 then sum else Fold(sum % 0x1_0000 + sum / 0x1_0000)
  }

  /** The checksum of RFC 1071, as a number. */
  function RfcChecksum(b: seq<Byte>): U16 {
    0xFFFF - Fold(NetworkSum(b))
  }

  function Swap(w: U16): (r: U16)
    ensures r % 256 == w / 256 && r / 256 == w % 256
  {
    w % 256 * 256 + w / 256
  }

  /** The two bytes a little-endian host writes when it stores a 16-bit word. */
  function StoredNatively(w: U16): (b: seq<Byte>)
    ensures |b| == 2
  {
    [w % 256, w / 256]
  }

  /** The two bytes of a 16-bit word in network order. */
  function NetworkOrder(w: U16): (b: seq<Byte>)
    ensures |b| == 2
  {
    [w / 256, w % 256]
  }

  /** Folding keeps the residue modulo 65535, and only zero folds to zero. */
  lemma {:induction false} FoldLaw(sum: nat)
    ensures Fold(sum) % 0xFFFF == sum % 0xFFFF
    ensures Fold(sum) == 0 <==> sum == 0
    decreases sum
  {
    if sum >= 0x1_0000 {
      var hi, lo := sum / 0x1_0000, sum % 0x1_0000;
      assert sum == hi * 0xFFFF + (lo + hi);
      ModShift(lo + hi, hi);
      FoldLaw(lo + hi);
    }
  }

  lemma ModShift(a: int, k: int)
    ensures (k * 0xFFFF + a) % 0xFFFF == a % 0xFFFF
  {
    var q, r := a / 0xFFFF, a % 0xFFFF;
    assert k * 0xFFFF + a == (k + q) * 0xFFFF + r;
  }

  /** The network-order sum is 256 times the native one, modulo 65535. */
  lemma {:induction false} SumsAgree(b: seq<Byte>) returns (k: int)
    ensures 256 * NativeSum(b) == NetworkSum(b) + 0xFFFF * k
  {
    if |b| < 2 {
      k := 0;
    } else {
      var rest := SumsAgree(b[2..]);
      k := b[1] + rest;
    }
  }

  lemma SwapIsTimes256(w: U16)
    ensures 256 * w == Swap(w) + 0xFFFF * (w / 256)
  {
    assert w == w / 256 * 256 + w % 256;
  }

  /** Two folded sums with the same residue that are both zero or both non-zero are equal. */
  lemma FoldedFormUnique(a: U16, b: U16)
    requires a % 0xFFFF == b % 0xFFFF
    requires a == 0 <==> b == 0
    ensures a == b
  {
  }

  /** Folding commutes with the byte swap between the two readings of one buffer. */
  lemma FoldSwaps(b: seq<Byte>)
    ensures Swap(Fold(NativeSum(b))) == Fold(NetworkSum(b))
  {
    var native, network := NativeSum(b), NetworkSum(b);
    var f := Fold(native);
    FoldLaw(native);
    FoldLaw(network);
    var k := SumsAgree(b);
    var q := native / 0xFFFF - f / 0xFFFF;
    assert native == f + 0xFFFF * q;
    SwapIsTimes256(f);
    assert Swap(f) + 0xFFFF * (f / 256 + 256 * q) == network + 0xFFFF * k;
    ModShift(network, k - f / 256 - 256 * q);
    assert Swap(f) == 0 <==> f == 0;
    ZeroSums(b);
    FoldedFormUnique(Swap(f), Fold(network));
  }

  lemma {:induction false} ZeroSums(b: seq<Byte>)
    ensures NativeSum(b) == 0 <==> NetworkSum(b) == 0
  {
    if |b| >= 2 {
      ZeroSums(b[2..]);
    }
  }

  /** Complement and native store turn the native sum into the bytes RFC 1071 asks for. */
  lemma WireBytes(b: seq<Byte>)
    ensures StoredNatively(0xFFFF - Fold(NativeSum(b))) == NetworkOrder(RfcChecksum(b))
  {
    FoldSwaps(b);
    ComplementSwaps(Fold(NativeSum(b)));
  }

  lemma ComplementSwaps(f: U16)
    ensures StoredNatively(0xFFFF - f) == NetworkOrder(0xFFFF - Swap(f))
  {
    var hi, lo := f / 256, f % 256;
    assert 0xFFFF - f == 256 * (255 - hi) + (255 - lo);
    assert 0xFFFF - Swap(f) == 256 * (255 - lo) + (255 - hi);
  }

  /** Up to this many bytes, the uint32 accumulator cannot wrap. */
  const MAX_EXACT_LENGTH: nat := 131074

  lemma {:induction false} SumBound(b: seq<Byte>)
    ensures NativeSum(b) <= 0xFFFF * ((|b| + 1) / 2)
    ensures |b| <= MAX_EXACT_LENGTH ==> NativeSum(b) < U32_SIZE
  {
    if |b| >= 2 {
      SumBound(b[2..]);
    }
  }

  /**
   * The checksum routine: native words, a uint32 accumulator, end-around carry. Whenever the
   * accumulator does not wrap, storing its result natively puts the checksum of RFC 1071 on the
   * wire in network order, for even and odd lengths.
   */
  method Compute(b: seq<Byte>) returns (r: U16)
    ensures NativeSum(b) < U32_SIZE ==> r == 0xFFFF - Fold(NativeSum(b))
    ensures NativeSum(b) < U32_SIZE ==> StoredNatively(r) == NetworkOrder(RfcChecksum(b))
  {
    var sum: nat := 0;
    var i := 0;
    while i + 1 < |b|
      invariant 0 <= i <= |b| && i % 2 == 0
      invariant 0 <= sum < U32_SIZE
      invariant NativeSum(b) < U32_SIZE ==> sum + NativeSum(b[i..]) == NativeSum(b)
    {
      assert b[i..][2..] == b[i + 2..];
      var word: int := b[i] as int + 256 * b[i + 1] as int;
      sum := Wrap32(sum + word);
      i := i + 2;
    }
    if |b| % 2 != 0 {
      sum := Wrap32(sum + b[|b| - 1]);
    }
    ghost var total := sum;
    assert NativeSum(b) < U32_SIZE ==> total == NativeSum(b);
    while sum / 0x1_0000 != 0
      invariant 0 <= sum < U32_SIZE
      invariant Fold(sum) == Fold(total)
      decreases sum
    {
      sum := sum % 0x1_0000 + sum / 0x1_0000;
    }
    r := 0xFFFF - sum;
    WireBytes(b);
  }

  /** Writing the checksum of a buffer into an even-aligned zero field makes the buffer's checksum zero. */
  lemma SealedSumIsZero(b: seq<Byte>, sealed: seq<Byte>)
    requires NativeSum(sealed) == NativeSum(b) + (0xFFFF - Fold(NativeSum(b)))
    ensures Fold(NativeSum(sealed)) == 0xFFFF
    ensures RfcChecksum(sealed) == 0
  {
    FoldLaw(NativeSum(b));
    Complement(NativeSum(b), Fold(NativeSum(b)));
    FoldLaw(NativeSum(sealed));
    FoldedFormUnique(Fold(NativeSum(sealed)), 0xFFFF);
    FoldSwaps(sealed);
    assert Swap(0xFFFF) == 0xFFFF;
  }

  lemma Complement(s: nat, f: U16)
    requires f % 0xFFFF == s % 0xFFFF
    ensures (s + (0xFFFF - f)) % 0xFFFF == 0
  {
    var k := s / 0xFFFF - f / 0xFFFF + 1;
    assert s + (0xFFFF - f) == k * 0xFFFF + 0;
    ModShift(0, k);
  }
}

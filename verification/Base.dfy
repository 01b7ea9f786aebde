/** Machine integers and the saturating arithmetic of src/base.h. */
module Base {
  const U64_MAX: int := 0xFFFF_FFFF_FFFF_FFFF
  const INT_MAX: int := 0x7FFF_FFFF
  const MS_PER_SEC: int := 1000

  type Byte = x: int | 0 <= x < 256
  type U16 = x: int | 0 <= x < 0x1_0000
  type U64 = x: int | 0 <= x <= U64_MAX

  datatype Option<+T> = None | Some(value: T)

  function Min(a: int, b: int): int {
    if a < b then a else b
  }

  /** Saturating addition, tested without overflowing, is addition clamped to the largest uint64. */
  function AddSat(a: U64, b: U64): (r: U64)
    ensures r == Min(a + b, 0xFFFF_FFFF_FFFF_FFFF)
  {
    if b > U64_MAX - a then U64_MAX else a + b
  }

  /** Saturating multiplication, tested by division, is multiplication clamped to the largest uint64. */
  function MulSat(a: U64, b: U64): (r: U64)
    ensures r == Min(a * b, 0xFFFF_FFFF_FFFF_FFFF)
  {
    MulTest(a, b, U64_MAX);
    if b != 0 && a > U64_MAX / b then U64_MAX else a * b
  }

  lemma MulTest(a: nat, b: nat, max: nat)
    ensures b != 0 ==> (a > max / b <==> a * b > max)
  {
    if b != 0 {
      var q := max / b;
      assert max == q * b + max % b;
      if a > q {
        MulMonotone(q + 1, a, b);
        assert (q + 1) * b == q * b + b;
      } else {
        MulMonotone(a, q, b);
      }
    }
  }

  lemma MulMonotone(a: nat, c: nat, b: nat)
    requires a <= c
    ensures a * b <= c * b
  {
    assert c * b == a * b + (c - a) * b;
  }
}

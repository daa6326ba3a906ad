/**
 Fixed-width machine integers used by the renderer, as subsets of `int`.
 The C++ code stores colour channels in `uint8_t` and pixels in `uint32_t`.
 */
module Words {

  const ByteLimit: int := 0x100
  const WordLimit: int := 0x1_0000_0000

  /** An unsigned 8-bit value (`uint8_t`). */
  type Byte = x: int | 0 <= x < ByteLimit

  /** An unsigned 32-bit value (`uint32_t`). */
  type UInt32 = x: int | 0 <= x < WordLimit

  function Abs(x: int): (r: nat)
    ensures r == x || r == -x
  {
    if x < 0 then -x else x
  }

  function Max(a: int, b: int): (r: int)
    ensures r >= a && r >= b && (r == a || r == b)
  {
    if a < b then b else a
  }

  /** Multiplying by a non-negative factor keeps the order. */
  lemma MulMonotone(a: int, b: int, c: int)
    requires 0 <= a && b <= c
    ensures a * b <= a * c
  {
    assert a * c - a * b == a * (c - b);
  }

  function Min(a: int, b: int): (r: int)
    ensures r <= a && r <= b && (r == a || r == b)
  {
    if a < b then a else b
  }
}

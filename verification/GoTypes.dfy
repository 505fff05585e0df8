/** The fixed-width integers, byte strings and result types the Go sources are written in. */
module GoTypes {

  const TWO_32: int := 0x1_0000_0000
  const TWO_64: int := 0x1_0000_0000_0000_0000
  const MAX_INT32: int := 0x7fff_ffff
  const MAX_INT64: int := 0x7fff_ffff_ffff_ffff

  type Byte = x: int | 0 <= x < 256
  type UInt32 = x: int | 0 <= x < TWO_32
  type Int32 = x: int | -0x8000_0000 <= x <= MAX_INT32
  type Int64 = x: int | -0x8000_0000_0000_0000 <= x <= MAX_INT64

  /** A Go string or byte slice. */
  type Bytes = seq<Byte>

  datatype Option<+T> = None | Some(value: T)

  function Pow2(e: nat): (p: nat)
    ensures p > 0
  {
    if e == 0 then 1 else 2 * Pow2(e - 1)
  }

  /** The int32 that Go's conversion leaves of an integer: its low 32 bits in two's complement. */
  function Wrap32(x: int): (r: Int32)
    ensures (x - r) % TWO_32 == 0
    ensures -0x8000_0000 <= x <= MAX_INT32 ==> r == x
  {
    var low := x % TWO_32;
    if low <= MAX_INT32 then low else low - TWO_32
  }

  /** The int64 that an int64 addition leaves of the exact sum. */
  function Wrap64(x: int): (r: Int64)
    ensures (x - r) % TWO_64 == 0
    ensures -0x8000_0000_0000_0000 <= x <= MAX_INT64 ==> r == x
  {
    var low := x % TWO_64;
    if low <= MAX_INT64 then low else low - TWO_64
  }

  /** Wrapping an intermediate sum does not change the wrapped result. */
  lemma WrapAdd(x: int, y: int)
    ensures Wrap64(Wrap64(x) + y) == Wrap64(x + y)
  {
    var k := (x - Wrap64(x)) / TWO_64;
    assert x + y == Wrap64(x) + y + k * TWO_64;
    WrapPeriodic(Wrap64(x) + y, k);
  }

  lemma WrapPeriodic(x: int, k: int)
    ensures Wrap64(x + k * TWO_64) == Wrap64(x)
  {
    assert (x + k * TWO_64) % TWO_64 == x % TWO_64 by {
      var q := x / TWO_64;
      assert x + k * TWO_64 == (q + k) * TWO_64 + x % TWO_64;
    }
  }

  /** Go's integer division, which truncates toward zero. */
  function TruncDiv(a: int, b: int): (q: int)
    requires b > 0
    ensures a >= 0 ==> q * b <= a < (q + 1) * b
    ensures a < 0 ==> (q - 1) * b < a <= q * b
  {
    if a >= 0 then a / b else -((-a) / b)
  }
}

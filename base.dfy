/** Types shared by every part of the model: C's fixed-width integers,
    optional values (a C pointer that may be NULL) and 32-bit wrap-around. */
module Base {

  /** A value that may be absent: a pointer that may be NULL, a lookup
      that may fail. */
  datatype Option<+T> = None | Some(value: T)

  /** Size of the 32-bit address space and modulus of `u32` arithmetic. */
  const TWO_32: int := 0x1_0000_0000

  /** A `u8`. */
  type Byte = x: int | 0 <= x < 0x100

  /** A `u32`. */
  type U32 = x: int | 0 <= x < 0x1_0000_0000

  /** `n` zero bytes, as left by `memset(p, 0, n)`. */
  function Zeros(n: nat): (z: seq<Byte>)
    ensures |z| == n
  {
    seq(n, _ => 0)
  }

  /** The `u32` that C stores for the mathematical value `x`: `x` reduced
      modulo 2^32, which is `x` itself whenever `x` already fits. */
  function Wrap32(x: int): (r: U32)
    ensures 0 <= x < TWO_32 ==> r == x
    ensures TWO_32 <= x < 2 * TWO_32 ==> r == x - TWO_32
    ensures -TWO_32 <= x < 0 ==> r == x + TWO_32
  {
    x % TWO_32
  }
}

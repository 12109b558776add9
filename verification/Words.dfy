/** Fixed-width unsigned integers, optional values and four opaque bytes. */
module Words {
  import opened Bytes

  const U32_MODULUS := 0x1_0000_0000
  const U64_MODULUS := 0x1_0000_0000_0000_0000

  type U8 = n: nat | n < 0x100
  type U16 = n: nat | n < 0x1_0000
  type U32 = n: nat | n < U32_MODULUS
  type U64 = n: nat | n < U64_MODULUS

  /** The bytes of a float, or of reserved space: nothing but their number is used. */
  type Word = s: seq<byte> | |s| == 4 witness Zeros(4)

  datatype Option<T> = None | Some(value: T)
  {
    function GetOr(default: T): T {
      if Some? then value else default
    }
  }

  /** Difference of two unsigned 64-bit numbers, wrapping around. */
  function Sub64(a: U64, b: U64): U64 {
    if a >= b then a - b else a + U64_MODULUS - b
  }

  /** The next unsigned 32-bit number, wrapping around. */
  function Successor(n: U32): U32 {
    if n + 1 == U32_MODULUS then 0 else n + 1
  }

  function Min(a: nat, b: nat): nat {
    if a <= b then a else b
  }
}

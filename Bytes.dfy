/** Kotlin/Java fixed-width integers: `Byte` and `Int` are two's-complement, signed. */
module Bytes {

  newtype int8 = x: int | -0x80 <= x < 0x80
  newtype int32 = x: int | -0x8000_0000 <= x < 0x8000_0000

  /** Unsigned reading of a byte (`b.toInt() and 0xff`). */
  function Unsigned(b: int8): (u: nat)
    ensures u < 0x100
    ensures u == b as int || u == b as int + 0x100
  {
    if b < 0 then b as int + 0x100 else b as int
  }

  /** Kotlin's `Int.toByte()` (and `Long.toByte()`): keep the low 8 bits, read them as two's complement. */
  function ToByte(x: int): (b: int8)
    ensures Unsigned(b) == x % 0x100
  {
    var low := x % 0x100;
    if low < 0x80 then low as int8 else (low - 0x100) as int8
  }
}

/**
 * Fixed-width integer types used by the library (Solace::uint8 ... uint64,
 * int32), and the narrowing conversions the C++ code performs implicitly.
 */
module Ints {

  type uint8 = x: int | 0 <= x < 0x100
  type uint16 = x: int | 0 <= x < 0x1_0000
  type uint32 = x: int | 0 <= x < 0x1_0000_0000
  type uint64 = x: int | 0 <= x < 0x1_0000_0000_0000_0000
  type int32 = x: int | -0x8000_0000 <= x < 0x8000_0000

  const UINT16_MAX: uint16 := 0xFFFF

  /** Storing an int into a uint16 keeps the low 16 bits (modular wrap-around). */
  function ToUint16(x: int): (r: uint16)
    ensures 0 <= x < 0x1_0000 ==> r == x
    ensures -0x1_0000 <= x < 0 ==> r == x + 0x1_0000
  {
    x % 0x1_0000
  }

  /** Storing an int into an int32: two's-complement wrap-around of the low 32 bits. */
  function ToInt32(x: int): (r: int32)
    ensures -0x8000_0000 <= x < 0x8000_0000 ==> r == x
    ensures 0x8000_0000 <= x < 0x1_8000_0000 ==> r == x - 0x1_0000_0000
    ensures -0x1_8000_0000 <= x < -0x8000_0000 ==> r == x + 0x1_0000_0000
  {
    (x + 0x8000_0000) % 0x1_0000_0000 - 0x8000_0000
  }

  /**
   * std::hash of an integer type. The model follows libstdc++, whose hash of
   * an integer is the value itself converted to size_t (64 bits).
   */
  function StdHash(v: uint64): bv64
  {
    v as bv64
  }
}

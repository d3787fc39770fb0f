/** Machine word types of the 32-bit kernel, with the truncations C applies. */
module Words {
  const U16_LIMIT: int := 0x1_0000
  const U32_LIMIT: int := 0x1_0000_0000
  const U64_LIMIT: int := 0x1_0000_0000_0000_0000

  type u8 = x: int | 0 <= x < 0x100
  type u16 = x: int | 0 <= x < 0x1_0000
  type u32 = x: int | 0 <= x < 0x1_0000_0000
  type u64 = x: int | 0 <= x < 0x1_0000_0000_0000_0000

  /** The value a C conversion to an unsigned 32-bit type keeps. */
  function ToU32(x: int): (r: u32)
    ensures 0 <= x < U32_LIMIT ==> r == x
  {
    x % U32_LIMIT
  }

  /** Unsigned 64-bit addition, which wraps around. */
  function Add64(x: u64, y: u64): u64 {
    if x + y < U64_LIMIT then x + y else x + y - U64_LIMIT
  }

  datatype Option<+T> = None | Some(value: T)
}

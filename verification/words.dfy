/** Fixed-width machine integers of the emulated MIPS32 machine, as bounded `int`s. */
module Words {

  /** 2^32: one past the largest `u32`. */
  const U32_LIMIT: int := 0x1_0000_0000

  type u32 = x: int | 0 <= x < 0x1_0000_0000

  type u8 = x: int | 0 <= x < 0x100
}

/** Types that several parts of the system share. */
module Common {
  datatype Option<T> = None | Some(value: T)

  type byte = x: int | 0 <= x < 256

  const WORD := 0x1_0000_0000

  /** A C `unsigned long` or pointer on i386. */
  type u32 = x: int | 0 <= x < 0x1_0000_0000

  /** The `(int)` cast of a 32-bit number. */
  function AsInt(x: u32): int { if x < 0x8000_0000 then x else x - WORD }
}

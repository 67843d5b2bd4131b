/** Machine words, optional values and the few helpers several components share. */
module Words {

  const TWO_63 := 0x8000_0000_0000_0000
  const TWO_64 := 0x1_0000_0000_0000_0000

  type byte = x: int | 0 <= x < 0x100
  type u16 = x: int | 0 <= x < 0x1_0000
  type u32 = x: int | 0 <= x < 0x1_0000_0000
  type i32 = x: int | -0x8000_0000 <= x < 0x8000_0000
  type u64 = x: int | 0 <= x < 0x1_0000_0000_0000_0000
  type i64 = x: int | -0x8000_0000_0000_0000 <= x < 0x8000_0000_0000_0000

  datatype Option<+T> = None | Some(value: T)

  /** Unsigned 64-bit subtraction as C performs it: the result wraps below zero. */
  function Sub64(a: u64, b: u64): u64 {
    (a - b) % TWO_64
  }

  /** The C conversion `(int64_t)x` of an unsigned 64-bit value. */
  function AsSigned64(x: u64): i64 {
    if x < TWO_63 then x else x - TWO_64
  }

  /** An unsigned 32-bit value passed where printf expects an int. */
  function AsSigned32(x: u32): i32 {
    if x < 0x8000_0000 then x else x - 0x1_0000_0000
  }

  function Min(a: int, b: int): int {
    if a < b then a else b
  }

  function Max(a: int, b: int): int {
    if a < b then b else a
  }
}

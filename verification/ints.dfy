/** Fixed-width integer types of the Rust source, as bounded subsets of `int`. */
module Ints {
  const U32_LIMIT: int := 0x1_0000_0000

  type u8 = x: int | 0 <= x < 0x100
  type u16 = x: int | 0 <= x < 0x1_0000
  type u32 = x: int | 0 <= x < U32_LIMIT
  type i32 = x: int | -0x8000_0000 <= x < 0x8000_0000

  /** Release-build `u32` addition and subtraction: results wrap modulo 2^32. */
  function WrappingAdd(a: u32, b: int): (r: u32)
    ensures 0 <= a + b < U32_LIMIT ==> r == a + b
    ensures a + b == U32_LIMIT ==> r == 0
    ensures a + b == -1 ==> r == U32_LIMIT - 1
  {
    (a + b) % U32_LIMIT
  }

  /** Release-build `i32` addition: the sum wraps into the signed range. */
  function WrappingAddI32(a: i32, b: i32): (r: i32)
    ensures -0x8000_0000 <= a + b < 0x8000_0000 ==> r == a + b
    ensures a + b >= 0x8000_0000 ==> r == a + b - U32_LIMIT
    ensures a + b < -0x8000_0000 ==> r == a + b + U32_LIMIT
  {
    (a + b + 0x8000_0000) % U32_LIMIT - 0x8000_0000
  }

  /** Release-build `i32` subtraction: the difference wraps into the signed range. */
  function WrappingSubI32(a: i32, b: i32): (r: i32)
    ensures -0x8000_0000 <= a - b < 0x8000_0000 ==> r == a - b
    ensures a - b >= 0x8000_0000 ==> r == a - b - U32_LIMIT
    ensures a - b < -0x8000_0000 ==> r == a - b + U32_LIMIT
  {
    (a - b + 0x8000_0000) % U32_LIMIT - 0x8000_0000
  }

  /** The bit-preserving casts `i32 as u32` and `u32 as i32`. */
  function I32AsU32(a: i32): (r: u32)
    ensures a >= 0 ==> r == a
    ensures a < 0 ==> r == a + U32_LIMIT
  {
    a % U32_LIMIT
  }

  function U32AsI32(a: u32): (r: i32)
    ensures a < 0x8000_0000 ==> r == a
    ensures a >= 0x8000_0000 ==> r == a - U32_LIMIT
  {
    if a < 0x8000_0000 then a else a - U32_LIMIT
  }
}

/** Rust's `Option`. */
module Options {
  datatype Option<T> = None | Some(value: T)
}

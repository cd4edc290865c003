/**
 * The machine integer types the code works with, as ranges of `int`.
 *
 * Every bit operation in the modelled code uses a constant mask or shift, so it is written
 * with arithmetic: `x & (2^k - 1)` is `x % 2^k`, `x >> k` is `x / 2^k`, `x << k` is
 * `x * 2^k` (then `% 2^w` for a w-bit result), and `a | b` is `a + b` when no bit is set in both.
 */
module Ints {

  const TWO_8: int := 0x100
  const TWO_16: int := 0x1_0000
  const TWO_32: int := 0x1_0000_0000
  const TWO_64: int := 0x1_0000_0000_0000_0000

  /** A 4-bit bit-field. */
  type u4 = x: int | 0 <= x < 0x10

  /** Rust `u8`. */
  type u8 = x: int | 0 <= x < TWO_8

  /** Rust `u16` (also `__be16` and `__sum16`, which are `u16` in memory). */
  type u16 = x: int | 0 <= x < TWO_16

  /** Rust `u32` (also `__be32`). */
  type u32 = x: int | 0 <= x < TWO_32

  /** Rust `u64`. */
  type u64 = x: int | 0 <= x < TWO_64

  /** Rust `usize` on a 64-bit target: addresses and sizes. */
  type usize = x: int | 0 <= x < TWO_64

  /** C `int` / Rust `i32`. */
  newtype i32 = x: int | -0x8000_0000 <= x < 0x8000_0000

  /** `a + b` on `usize` as an optimised build computes it: modulo 2^64. */
  function WrappingAdd(a: usize, b: usize): (r: usize)
    ensures a + b < TWO_64 ==> r == a + b
    ensures a + b >= TWO_64 ==> r == a + b - TWO_64 && r < a
  {
    (a + b) % TWO_64
  }
}

/**
 Machine-level numbers shared by the kernel models: page size, the 64-bit
 range, and the saturating and wrapping additions the kernel uses on it.
 */
module Machine {

  const PAGE_SIZE: nat := 4096
  const U64_MAX: nat := 0xFFFF_FFFF_FFFF_FFFF

  /** A 64-bit unsigned word, read as a number. */
  type U64 = x: nat | x <= U64_MAX

  /** An 8-bit byte, read as a number. */
  type Byte = b: nat | b < 256

  datatype Option<+T> = None | Some(value: T)

  datatype Result<+T, +E> = Ok(value: T) | Err(error: E)

  function Min(a: nat, b: nat): nat { if a <= b then a else b }

  function Max(a: nat, b: nat): nat { if a <= b then b else a }

  function SatAdd(a: nat, b: nat): U64 { if a + b > U64_MAX then U64_MAX else a + b }

  function SatSub(a: nat, b: nat): nat { if a < b then 0 else a - b }

  /** Page index of the first page boundary at or above `x`; the addition wraps like a release build's. */
  function PageCeil(x: U64): nat { (x + PAGE_SIZE - 1) % (U64_MAX + 1) / PAGE_SIZE }

  function PageFloor(x: U64): nat { x / PAGE_SIZE }
}

/** Failure-carrying datatypes used across the model: `Option` for Rust's
    `Option` and `Result` for Rust's `Result` (and for a panic, where the
    source would abort the thread). */
module Wrappers {

  datatype Option<+T> = None | Some(value: T)

  datatype Result<+R, +E> = Success(value: R) | Failure(error: E)
}

/** The fixed-width unsigned integers of the source, as bounded naturals.
    The target is a 64-bit platform, so `usize` has the width of `u64`. */
module RustInt {

  const U32_MAX: nat := 0xFFFF_FFFF
  const U64_MAX: nat := 0xFFFF_FFFF_FFFF_FFFF
  const USIZE_MAX: nat := U64_MAX
  /** The largest allocation a `Vec` accepts, in bytes. */
  const ISIZE_MAX: nat := 0x7FFF_FFFF_FFFF_FFFF

  type u32 = n: nat | n <= U32_MAX
  type u64 = n: nat | n <= U64_MAX
  type usize = n: nat | n <= USIZE_MAX
}

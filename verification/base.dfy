/**
  Shared vocabulary of the segment index: the fixed-width integers the Rust
  code stores, the term type, and an Option wrapper for lookups.
 */
module Base {

  /** Largest value of a Rust `u32`. */
  const MaxU32: int := 0xFFFF_FFFF

  /** A Rust `u32`: segment numbers and the segment counter. */
  type u32 = x: int | 0 <= x <= MaxU32

  /** A Rust `u64`: the Unix-second timestamps of a summary. */
  type u64 = x: int | 0 <= x < 0x1_0000_0000_0000_0000

  /** A query term. The Rust code receives it as a `String` and tests its bytes. */
  type Term = string

  datatype Option<+T> = None | Some(value: T)
}

/** Machine integer and byte types of the Rust source, written out as bounded integers. */
module Primitives {

  /** Rust `u8`. */
  newtype byte = x: int | 0 <= x < 0x100

  /** Rust `Vec<u8>` / `&[u8]`. */
  type Bytes = seq<byte>

  /** Rust `u64`. */
  type u64 = x: nat | x < 0x1_0000_0000_0000_0000

  /** Rust `usize` on a 64-bit target. */
  type usize = x: nat | x < 0x1_0000_0000_0000_0000
}

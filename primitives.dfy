/**
 * Machine-level types used by the seed-expansion stream, and the opaque
 * hash primitive it is built on.
 */
module Primitives {

  /** An unsigned 8-bit value (Rust `u8`). */
  type byte = x: int | 0 <= x < 0x100

  /** An unsigned 16-bit value (Rust `u16`), the type of the domain nonce. */
  type u16 = x: int | 0 <= x < 0x1_0000

  /** An unsigned 64-bit value (Rust `u64`), the type of a block count. */
  type u64 = x: int | 0 <= x < 0x1_0000_0000_0000_0000

  /** Rust `usize` on a 64-bit target: release-mode arithmetic on it wraps modulo 2^64. */
  const USIZE_MODULUS: nat := 0x1_0000_0000_0000_0000

  type usize = x: int | 0 <= x < USIZE_MODULUS

  /** Length in bytes of one Keccak-256 output, and so of the stream state. */
  const DIGEST_BYTES: nat := 32

  type Digest = d: seq<byte> | |d| == DIGEST_BYTES witness seq(DIGEST_BYTES, _ => 0)

  /**
   * The Keccak-256 primitive (`Keccak::v256` followed by `finalize`),
   * treated as an arbitrary function from its whole input to a 32-byte
   * digest. Feeding it several `update`s is the same as hashing their
   * concatenation, so a hasher call is `hash(a + b)`.
   */
  type Hash = seq<byte> -> Digest
}

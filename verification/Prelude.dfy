/** Shared value types: options, results, bytes and the unsigned 64-bit integers of Go. */
module Prelude {

  datatype Option<+T> = None | Some(value: T)

  datatype Result<+T, +E> = Ok(value: T) | Err(error: E)

  type byte = b: int | 0 <= b < 256

  type Bytes = seq<byte>

  /** A 32-byte hash. */
  type Bytes32 = s: Bytes | |s| == 32 witness seq(32, i => 0)

  /** The bytes of an identity name; a Fabric message carries far less than 4 GiB. */
  type Name = s: Bytes | |s| < 0x1_0000_0000

  const TWO32: nat := 0x1_0000_0000
  const TWO64: nat := 0x1_0000_0000_0000_0000
  const MAX64: nat := 0xffff_ffff_ffff_ffff

  /** A Go `uint64`. */
  type u64 = x: int | 0 <= x < 0x1_0000_0000_0000_0000

  /** Go's `uint64` addition and multiplication, which wrap around. */
  function Add64(a: u64, b: u64): u64 {
    if a + b < 0x1_0000_0000_0000_0000 then a + b else a + b - 0x1_0000_0000_0000_0000
  }

  function Mul64(a: u64, b: u64): u64 {
    (a * b) % 0x1_0000_0000_0000_0000
  }
}

/**
 * Byte sequences and the little-endian reading of words.
 *
 * The hash table feeds the raw bytes of a `size_t` key to the hash function,
 * and both the hash function's 4-byte block reads and the model of the byte
 * buffer behind a bucket need a fixed byte order. The model fixes a 64-bit,
 * little-endian machine throughout, so `memcpy` of a word yields its low
 * byte first.
 */
module Bytes {

  /** An unsigned 64-bit quantity: `size_t`, `uintptr_t` or a pointer value. */
  type Word64 = bv64

  /** The 32-bit word stored little-endian in 4 bytes (an unaligned `memcpy` read). */
  function Word32(bs: seq<bv8>): bv32
    requires |bs| == 4
  {
    (bs[0] as bv32) | (bs[1] as bv32 << 8) | (bs[2] as bv32 << 16) | (bs[3] as bv32 << 24)
  }

  /** The 8 bytes of a 64-bit word, least significant first. */
  function Bytes64(x: Word64): (bs: seq<bv8>)
    ensures |bs| == 8
  {
    [ (x & 0xff) as bv8, ((x >> 8) & 0xff) as bv8,
      ((x >> 16) & 0xff) as bv8, ((x >> 24) & 0xff) as bv8,
      ((x >> 32) & 0xff) as bv8, ((x >> 40) & 0xff) as bv8,
      ((x >> 48) & 0xff) as bv8, ((x >> 56) & 0xff) as bv8 ]
  }

  /** The 64-bit word stored little-endian in 8 bytes. */
  function Word64Of(bs: seq<bv8>): Word64
    requires |bs| == 8
  {
    (bs[0] as bv64) | (bs[1] as bv64 << 8) | (bs[2] as bv64 << 16) | (bs[3] as bv64 << 24)
    | (bs[4] as bv64 << 32) | (bs[5] as bv64 << 40) | (bs[6] as bv64 << 48) | (bs[7] as bv64 << 56)
  }

  /** Reading back the bytes of a 64-bit word gives the word. */
  lemma Word64Bytes64(x: Word64)
    ensures Word64Of(Bytes64(x)) == x
  {}

  /** The unsigned value of bits k..31 of x, scaled down by 2^k. */
  function UnsignedFrom(x: bv32, k: nat): nat
    requires k <= 32
    decreases 32 - k
  {
    if k == 32 then 0 else (if (x >> k) & 1 == 1 then 1 else 0) + 2 * UnsignedFrom(x, k + 1)
  }

  /** A 32-bit word read as an unsigned number, as when a `uint32_t` is widened to `size_t`. */
  function Unsigned32(x: bv32): nat {
    UnsignedFrom(x, 0)
  }
}

/**
 * MurmurHash3, x86 32-bit variant, as `murmur3_32` in src/hashmap.c
 * computes it: 4-byte blocks read little-endian, a 0–3 byte tail, and the
 * standard finalisation mix. All arithmetic is on `uint32_t`, i.e. `bv32`,
 * so multiplication and addition wrap modulo 2^32 as in C.
 */
module Murmur3 {
  import opened Bytes

  /** `murmur_32_scramble`: multiply, rotate left by 15, multiply. */
  function Scramble(k: bv32): bv32 {
    var k1 := k * 0xcc9e2d51;
    var k2 := (k1 << 15) | (k1 >> 17);
    k2 * 0x1b873593
  }

  /** One step of the block loop: fold the scrambled block into h, rotate by 13, mix. */
  function MixBlock(h: bv32, k: bv32): bv32 {
    var h1 := h ^ Scramble(k);
    var h2 := (h1 << 13) | (h1 >> 19);
    h2 * 5 + 0xe6546b64
  }

  /** The state after folding every complete 4-byte block of `key` into `h`, front to back. */
  function Blocks(h: bv32, key: seq<bv8>): bv32
    decreases |key|
  {
    if |key| < 4 then h else Blocks(MixBlock(h, Word32(key[..4])), key[4..])
  }

  /** The bytes left over after the complete blocks: the last `len & 3` bytes. */
  function Tail(key: seq<bv8>): (t: seq<bv8>)
    ensures |t| == |key| % 4
  {
    key[|key| - |key| % 4..]
  }

  /**
   * The word the tail loop builds: it visits the tail bytes from last to
   * first, shifting left by 8 before or-ing each in, so the first tail byte
   * lands lowest.
   */
  function TailWord(t: seq<bv8>): bv32
    requires |t| < 4
  {
    if |t| == 0 then 0 else (TailWord(t[1..]) << 8) | (t[0] as bv32)
  }

  /** A byte count as a `uint32_t`: n modulo 2^32, counted up in 32-bit arithmetic. */
  function LengthWord(n: nat): bv32 {
    if n == 0 then 0 else LengthWord(n - 1) + 1
  }

  /** The finalisation: fold in the 32-bit length, then the avalanche mix. */
  function Finalize(h: bv32, len: bv32): bv32 {
    var h1 := h ^ len;
    var h2 := h1 ^ (h1 >> 16);
    var h3 := h2 * 0x85ebca6b;
    var h4 := h3 ^ (h3 >> 13);
    var h5 := h4 * 0xc2b2ae35;
    h5 ^ (h5 >> 16)
  }

  /** What follows the two loops: fold in the scrambled tail word, then finalise. */
  function Finish(h: bv32, tail: bv32, len: bv32): bv32 {
    Finalize(h ^ Scramble(tail), len)
  }

  /** `murmur3_32(key, len, seed)` with `len == |key|`. */
  function Hash(key: seq<bv8>, seed: bv32): bv32 {
    Finish(Blocks(seed, key), TailWord(Tail(key)), LengthWord(|key|))
  }

  /** The hash of a `size_t` key: its 8 raw bytes, as every table operation computes it. */
  function HashKey(seed: bv32, key: Word64): bv32 {
    Hash(Bytes64(key), seed)
  }

  /** The block loop of `murmur3_32`: a countdown over the blocks advancing a read position. */
  method MixBlocks(key: seq<bv8>, seed: bv32) returns (h: bv32, pos: nat)
    ensures h == Blocks(seed, key)
    ensures pos == |key| - |key| % 4
  {
    h := seed;
    pos := 0;
    var i := |key| / 4;
    while i > 0
      invariant 0 <= i <= |key| / 4
      invariant pos == 4 * (|key| / 4 - i)
      invariant Blocks(h, key[pos..]) == Blocks(seed, key)
    {
      assert key[pos..][..4] == key[pos..pos + 4];
      assert key[pos..][4..] == key[pos + 4..];
      h := MixBlock(h, Word32(key[pos..pos + 4]));
      pos := pos + 4;
      i := i - 1;
    }
  }

  /** The tail loop of `murmur3_32`: walks the tail bytes from the last one down. */
  method ReadTail(key: seq<bv8>, pos: nat) returns (k: bv32)
    requires pos == |key| - |key| % 4
    ensures k == TailWord(Tail(key))
  {
    k := 0;
    var j := |key| % 4;
    while j > 0
      invariant 0 <= j <= |key| % 4
      invariant k == TailWord(key[pos + j..])
    {
      assert key[pos + j - 1..][1..] == key[pos + j..];
      k := (k << 8) | (key[pos + j - 1] as bv32);
      j := j - 1;
    }
  }

  /**
   * `murmur3_32` written the way the C code does it: the block loop, the tail
   * loop, then the finalisation. It computes exactly the functional `Hash`.
   */
  method Murmur3_32(key: seq<bv8>, seed: bv32) returns (h: bv32)
    ensures h == Hash(key, seed)
  {
    var pos;
    h, pos := MixBlocks(key, seed);
    var k := ReadTail(key, pos);
    h := Finish(h, k, LengthWord(|key|));
  }

  /**
   * Only the zero word scrambles to zero: both multipliers are odd and the
   * rotation drops no bit, so a non-zero block always changes the state.
   */
  lemma ScrambleVanishesOnlyAtZero(k: bv32)
    ensures Scramble(k) == 0 <==> k == 0
  {}

  /** Scrambling the zero word gives zero. */
  lemma ScrambleZero()
    ensures Scramble(0) == 0
  {}

  /** With a zero tail word the tail step is the identity. */
  lemma FinishWithoutTail(h: bv32, len: bv32)
    ensures Finish(h, 0, len) == Finalize(h, len)
  {
    var folded := h ^ Scramble(0);
    ScrambleZero();
    assert folded == h;
    assert Finish(h, 0, len) == Finalize(folded, len);
  }

  /** A tail of up to 3 bytes is read as the little-endian word of those bytes padded with zeros. */
  lemma TailWordIsLittleEndian(t: seq<bv8>)
    requires |t| < 4
    ensures TailWord(t) == Word32(t + seq(4 - |t|, _ => 0 as bv8))
  {
    var p := t + seq(4 - |t|, _ => 0 as bv8);
    if |t| == 1 {
      assert TailWord(t[1..]) == 0;
    } else if |t| == 2 {
      assert TailWord(t[1..][1..]) == 0;
    } else if |t| == 3 {
      assert TailWord(t[1..][1..][1..]) == 0;
    }
  }

  /**
   * When the length is a multiple of 4 the tail is empty, its word is 0, and
   * the tail step leaves the state alone: the hash is the blocks followed by
   * the finalisation.
   */
  lemma NoTailWhenAligned(key: seq<bv8>, seed: bv32)
    requires |key| % 4 == 0
    ensures TailWord(Tail(key)) == 0
    ensures Hash(key, seed) == Finalize(Blocks(seed, key), LengthWord(|key|))
  {
    var b := Blocks(seed, key);
    var len := LengthWord(|key|);
    assert TailWord(Tail(key)) == 0;
    assert Hash(key, seed) == Finish(b, 0, len);
    FinishWithoutTail(b, len);
  }

  /** A `size_t` key is two blocks and no tail. */
  lemma KeyHashIsTwoBlocks(seed: bv32, key: Word64)
    ensures HashKey(seed, key) ==
      Finalize(MixBlock(MixBlock(seed, Word32(Bytes64(key)[..4])), Word32(Bytes64(key)[4..])), 8)
  {
    var bs := Bytes64(key);
    NoTailWhenAligned(bs, seed);
    var h1 := MixBlock(seed, Word32(bs[..4]));
    assert bs[4..][..4] == bs[4..];
    assert Blocks(seed, bs) == Blocks(h1, bs[4..]);
    assert Blocks(h1, bs[4..]) == Blocks(MixBlock(h1, Word32(bs[4..])), bs[4..][4..]);
  }

  /** A key shorter than one block mixes no block: all of it is the tail. */
  lemma ShortKey(key: seq<bv8>, seed: bv32)
    requires |key| < 4
    ensures Blocks(seed, key) == seed
    ensures Tail(key) == key
  {}

  // Published reference values of MurmurHash3 x86_32. Each proof names the
  // intermediate words so that only constant arithmetic remains.

  /** The empty input: only the finalisation of the seed. */
  lemma EmptyInputReference()
    ensures Hash([], 0) == 0
    ensures Hash([], 1) == 0x514e28b7
    ensures Hash([], 0xffffffff) == 0x81f16f39
  {
    ShortKey([], 0);
    ShortKey([], 1);
    ShortKey([], 0xffffffff);
    ScrambleZero();
  }

  /** One block of zero bytes under seed 0. */
  lemma ZeroBlockReference()
    ensures Hash([0, 0, 0, 0], 0) == 0x2362f9de
  {
    var key: seq<bv8> := [0, 0, 0, 0];
    assert key[..4] == key && key[4..] == [];
    assert Word32(key) == 0;
    assert Blocks(0, key) == MixBlock(0, 0);
    assert MixBlock(0, 0) == 0xe6546b64;
    assert Tail(key) == [];
    ScrambleZero();
    assert Hash(key, 0) == Finalize(0xe6546b64, 4);
  }

  /** One block, "aaaa", under seed 0x9747b28c. */
  lemma OneBlockReference()
    ensures Hash([0x61, 0x61, 0x61, 0x61], 0x9747b28c) == 0x5a97808a
  {
    var key: seq<bv8> := [0x61, 0x61, 0x61, 0x61];
    assert key[..4] == key && key[4..] == [];
    assert Word32(key) == 0x61616161;
    assert Blocks(0x9747b28c, key) == MixBlock(0x9747b28c, 0x61616161);
    assert MixBlock(0x9747b28c, 0x61616161) == 0x720c8863;
    assert Tail(key) == [];
    ScrambleZero();
    assert Hash(key, 0x9747b28c) == Finalize(0x720c8863, 4);
  }

  /** A 3-byte tail, "abc", under seed 0x9747b28c: the tail word is 0x636261. */
  lemma ThreeByteTailReference()
    ensures Hash([0x61, 0x62, 0x63], 0x9747b28c) == 0xc84a62dd
  {
    var key: seq<bv8> := [0x61, 0x62, 0x63];
    ShortKey(key, 0x9747b28c);
    assert TailWord(key) == 0x636261 by {
      assert key[1..] == [0x62, 0x63] && key[1..][1..] == [0x63] && key[1..][1..][1..] == [];
    }
    assert Scramble(0x636261) == 0xa7349db7;
  }

  /** A 1-byte tail, "a", under seed 0x9747b28c. */
  lemma OneByteTailReference()
    ensures Hash([0x61], 0x9747b28c) == 0x7fa09ea6
  {
    var key: seq<bv8> := [0x61];
    ShortKey(key, 0x9747b28c);
    assert TailWord(key) == 0x61 by {
      assert key[1..] == [];
    }
    assert Scramble(0x61) == 0x504ba9d5;
  }
}

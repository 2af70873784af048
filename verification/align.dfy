/**
 * `align` and `is_power_of_two` of src/arena.c, on 64-bit `uintptr_t`
 * words, and the same rounding on unbounded offsets as the arena uses it.
 */
module Align {
  /** A 64-bit `uintptr_t`. */
  type Word = bv64

  /** `is_power_of_two`: clearing the lowest set bit leaves nothing, which 0 also satisfies. */
  predicate IsPowerOfTwo(x: Word) {
    x & (x - 1) == 0
  }

  /** The word with only bit k set. */
  function Bit(k: nat): Word
    requires k < 64
  {
    (1 as Word) << k
  }

  /** Every single-bit word passes the test. */
  lemma SingleBitAccepted(k: nat)
    requires k < 64
    ensures IsPowerOfTwo(Bit(k))
  {}

  /**
   * A word with bit k set passes the test exactly when it is that bit
   * alone; with `ZeroAccepted` this says the test accepts precisely the
   * words with at most one bit set.
   */
  lemma PowerOfTwoIffSingleBit(x: Word, k: nat)
    requires k < 64 && x & Bit(k) != 0
    ensures IsPowerOfTwo(x) <==> x == Bit(k)
  {
    if x == Bit(k) {
      SingleBitAccepted(k);
    }
  }

  /** The test accepts 0, which is not a power of two. */
  lemma ZeroAccepted()
    ensures IsPowerOfTwo(0)
  {}

  /** The default alignment, `2 * sizeof(void *)` on a 64-bit target. */
  const DefaultAlignment: Word := 16

  /**
   * `align` on words: when the low bits under the alignment are not all
   * zero, add what is missing up to the next multiple (wrapping at 2^64).
   * The source asserts the alignment passes `is_power_of_two`.
   */
  function AlignWord(ptr: Word, alignment: Word): Word
    requires IsPowerOfTwo(alignment)
  {
    var modulo := ptr & (alignment - 1);
    if modulo != 0 then ptr + (alignment - modulo) else ptr
  }

  /** The default alignment passes the source's assertion. */
  lemma DefaultAlignmentAccepted()
    ensures IsPowerOfTwo(DefaultAlignment)
  {}

  /** With the default alignment, `align` returns a pointer whose low four bits are clear. */
  lemma AlignWordAligned(ptr: Word)
    ensures AlignWord(ptr, 16) & 15 == 0
  {
    if ptr & 15 != 0 {
      RoundUp16(ptr);
    }
  }

  /** With the default alignment, `align` moves a pointer up by less than 16, unless the addition wraps. */
  lemma AlignWordNear(ptr: Word)
    requires ptr <= 0xffff_ffff_ffff_fff0
    ensures ptr <= AlignWord(ptr, 16) && AlignWord(ptr, 16) - ptr < 16
  {
    if ptr & 15 != 0 {
      RoundUp16(ptr);
    }
  }

  /** With the default alignment, `align` leaves an aligned pointer alone. */
  lemma AlignWordKeepsAligned(ptr: Word)
    requires ptr & 15 == 0
    ensures AlignWord(ptr, 16) == ptr
  {}

  /** Adding what the low four bits lack clears them, by less than 16 unless it wraps. */
  lemma RoundUp16(ptr: Word)
    requires ptr & 15 != 0
    ensures (ptr + (16 - (ptr & 15))) & 15 == 0
    ensures ptr <= 0xffff_ffff_ffff_fff0 ==> ptr <= ptr + (16 - (ptr & 15)) && (ptr + (16 - (ptr & 15))) - ptr < 16
  {}

  /** The degenerate alignment 0, which the power-of-two test lets through, sends every pointer to 0. */
  lemma AlignWordZero(ptr: Word)
    ensures IsPowerOfTwo(0) && AlignWord(ptr, 0) == 0
  {
    var mask: Word := 0 - 1;
    assert mask == 0xffff_ffff_ffff_ffff;
    assert ptr & mask == ptr;
    if ptr != 0 {
      assert AlignWord(ptr, 0) == ptr + (0 - ptr);
    }
  }

  /**
   * `align` on an unbounded offset: add what is missing up to the next
   * multiple of the alignment, keeping a multiple unchanged.
   */
  function AlignUp(p: nat, a: nat): (r: nat)
    requires a > 0
    ensures r % a == 0
    ensures p <= r < p + a
  {
    var modulo := p % a;
    if modulo != 0 then NextMultiple(p, a); p + (a - modulo) else p
  }

  /** Multiplication by a natural number is monotone. */
  lemma MulMono(x: nat, y: nat, a: nat)
    requires x >= y
    ensures x * a >= y * a
  {
    assert x * a == y * a + (x - y) * a;
  }

  /** Quotient and remainder are the unique k, r with n == k * a + r and r < a. */
  lemma DivUnique(n: nat, a: nat, k: nat, r: nat)
    requires a > 0 && r < a && n == k * a + r
    ensures n / a == k && n % a == r
  {
    var q := n / a;
    assert n == q * a + n % a;
    if q > k {
      MulMono(q, k + 1, a);
      assert false;
    }
    if q < k {
      MulMono(k, q + 1, a);
      assert false;
    }
  }

  /** Adding what the remainder lacks reaches a multiple. */
  lemma NextMultiple(p: nat, a: nat)
    requires a > 0
    ensures (p + (a - p % a)) % a == 0
  {
    var q := p / a;
    assert p == q * a + p % a;
    assert p + (a - p % a) == (q + 1) * a + 0;
    DivUnique(p + (a - p % a), a, q + 1, 0);
  }

  /** Two different multiples lie at least one alignment apart. */
  lemma MultipleGap(r: nat, q: nat, a: nat)
    requires a > 0 && r % a == 0 && q % a == 0 && q < r
    ensures r - q >= a
  {
    var x := r / a;
    var y := q / a;
    assert r == x * a + 0;
    assert q == y * a + 0;
    if x <= y {
      MulMono(y, x, a);
      assert false;
    }
    MulMono(x, y + 1, a);
  }

  /** The rounded offset is the least multiple of the alignment at or above the offset. */
  lemma AlignUpIsLeast(p: nat, a: nat, q: nat)
    requires a > 0 && q % a == 0 && p <= q
    ensures AlignUp(p, a) <= q
  {
    var r := AlignUp(p, a);
    if q < r {
      MultipleGap(r, q, a);
    }
  }

  /** Rounding twice is rounding once. */
  lemma AlignUpIdempotent(p: nat, a: nat)
    requires a > 0
    ensures AlignUp(AlignUp(p, a), a) == AlignUp(p, a)
  {}
}

/**
 * The growable bucket of `(key, value)` pairs behind each hash-table slot
 * (`bucket_t` with `__bucket_reserve`, `bucket_push` and `bucket_remove` in
 * src/hashmap.c).
 *
 * A bucket is its live pairs (`pairs[0..len)`) plus its capacity `cap`, the
 * number of pairs its buffer holds; `len <= cap` is what keeps `bucket_push`
 * inside the buffer.
 */
module Buckets {
  import opened Wrappers
  import opened Bytes

  /** Keys are `size_t` values. */
  type Key = Word64

  /** `kv_t`: a key and the value stored under it. */
  datatype Pair<V> = Pair(key: Key, val: V)

  /** `bucket_t`: `len` is `|pairs|`. */
  datatype Bucket<V> = Bucket(pairs: seq<Pair<V>>, cap: nat)

  /** `__CEILING`: the smallest capacity (and bucket count) ever allocated. */
  const Ceiling: nat := 4

  /** The larger of two sizes (`max` in src/hashmap.c, preferring the left on ties). */
  function Max(left: nat, right: nat): (r: nat)
    ensures r >= left && r >= right
    ensures r == left || r == right
  {
    if left >= right then left else right
  }

  /** The growth policy shared by buckets and the bucket array: at least 4, double, and one more. */
  function Grown(n: nat): (r: nat)
    ensures r >= Ceiling && r >= 2 * n && r > n
    ensures r == Ceiling || r == 2 * n || r == n + 1
  {
    Max(Ceiling, Max(2 * n, n + 1))
  }

  /** A bucket whose pairs fit in its buffer. */
  predicate Fits<V>(b: Bucket<V>) {
    |b.pairs| <= b.cap
  }

  /** `__bucket_reserve`: reallocate to `max(4, 2*cap, len+1)` pairs, keeping the contents. */
  function Reserve<V>(b: Bucket<V>): (r: Bucket<V>)
    ensures r.pairs == b.pairs
    ensures r.cap >= Ceiling && r.cap >= 2 * b.cap && r.cap > |b.pairs|
    ensures r.cap == Ceiling || r.cap == 2 * b.cap || r.cap == |b.pairs| + 1
  {
    Bucket(b.pairs, Max(Ceiling, Max(2 * b.cap, |b.pairs| + 1)))
  }

  /**
   * `bucket_push`: grow the buffer when it is full, then store the pair
   * after the existing ones.
   */
  function Push<V>(b: Bucket<V>, kv: Pair<V>): (r: Bucket<V>)
    ensures r.pairs == b.pairs + [kv]
    ensures Fits(b) ==> Fits(r)
    ensures |b.pairs| != b.cap ==> r.cap == b.cap
  {
    var b1 := if |b.pairs| == b.cap then Reserve(b) else b;
    Bucket(b1.pairs + [kv], b1.cap)
  }

  /** A push onto a full bucket reserves first: the buffer grows to exactly the reserved capacity. */
  lemma PushOntoFull<V>(b: Bucket<V>, kv: Pair<V>)
    requires |b.pairs| == b.cap
    ensures Push(b, kv).cap == Reserve(b).cap == Grown(b.cap)
  {}

  /** What `bucket_remove` hands back: the removed value (NULL as `None`) and the bucket after the call. */
  datatype Removal<V> = Removal(value: Option<V>, bucket: Option<Bucket<V>>)

  /**
   * `bucket_remove` as its comment and name intend: take out the pair at
   * `idx` and close the gap. A NULL bucket or an index past the end gives
   * NULL and changes nothing.
   */
  function Remove<V>(b: Option<Bucket<V>>, idx: nat): (r: Removal<V>)
    ensures b.None? || idx >= |b.value.pairs| ==> r == Removal(None, b)
    ensures b.Some? && idx < |b.value.pairs| ==>
      && r.value == Some(b.value.pairs[idx].val)
      && r.bucket.Some?
      && |r.bucket.value.pairs| == |b.value.pairs| - 1
      && r.bucket.value.cap == b.value.cap
      && multiset(r.bucket.value.pairs) + multiset{b.value.pairs[idx]} == multiset(b.value.pairs)
      && (forall j :: 0 <= j < idx ==> r.bucket.value.pairs[j] == b.value.pairs[j])
      && (forall j :: idx <= j < |r.bucket.value.pairs| ==> r.bucket.value.pairs[j] == b.value.pairs[j + 1])
  {
    if b.None? || idx >= |b.value.pairs| then Removal(None, b)
    else
      var ps := b.value.pairs;
      assert ps == ps[..idx] + [ps[idx]] + ps[idx + 1..];
      Removal(Some(ps[idx].val), Some(Bucket(ps[..idx] + ps[idx + 1..], b.value.cap)))
  }

  /** Removing the pair just pushed gives back its value and the bucket's previous pairs. */
  lemma RemoveAfterPush<V>(b: Bucket<V>, kv: Pair<V>)
    ensures Remove(Some(Push(b, kv)), |b.pairs|).value == Some(kv.val)
    ensures Remove(Some(Push(b, kv)), |b.pairs|).bucket.value.pairs == b.pairs
  {
    var r := Remove(Some(Push(b, kv)), |b.pairs|);
    assert r.bucket.value.pairs == (b.pairs + [kv])[..|b.pairs|];
  }

  // ---------------------------------------------------------------------
  // `bucket_remove` as written: the byte count handed to `memmove`
  // ---------------------------------------------------------------------

  /** `sizeof(kv_t)` on the modelled 64-bit target. */
  const PairSize: nat := 16

  /** The 16 bytes of one `kv_t`: its key's 8 bytes, then its value's. */
  function PairBytes(p: Pair<Word64>): (bs: seq<bv8>)
    ensures |bs| == PairSize
  {
    Bytes64(p.key) + Bytes64(p.val)
  }

  /** The pair stored in 16 bytes. */
  function PairOf(bs: seq<bv8>): Pair<Word64>
    requires |bs| == PairSize
  {
    Pair(Word64Of(bs[..8]), Word64Of(bs[8..]))
  }

  /** Bytes [16i, 16i+16) of a buffer: the slot of pair i. */
  function Slot<T>(bs: seq<T>, i: nat): (slot: seq<T>)
    requires 16 * i + 16 <= |bs|
    ensures |slot| == PairSize
  {
    bs[16 * i..16 * i + 16]
  }

  /** Chunks laid end to end, first chunk first. */
  function Concat<T>(chunks: seq<seq<T>>): seq<T> {
    if |chunks| == 0 then [] else Concat(chunks[..|chunks| - 1]) + chunks[|chunks| - 1]
  }

  /** Chunks of 16 elements each, laid end to end, put chunk i in slot i. */
  lemma {:induction false} ConcatSlot<T>(chunks: seq<seq<T>>, i: nat)
    requires forall k :: 0 <= k < |chunks| ==> |chunks[k]| == PairSize
    requires i < |chunks|
    ensures |Concat(chunks)| == PairSize * |chunks|
    ensures Slot(Concat(chunks), i) == chunks[i]
  {
    var n := |chunks| - 1;
    var front := Concat(chunks[..n]);
    if n == 0 {
      assert front == [];
    } else if i < n {
      ConcatSlot(chunks[..n], i);
      assert Slot(Concat(chunks), i) == Slot(front, i);
    } else {
      ConcatSlot(chunks[..n], 0);
      assert Slot(Concat(chunks), i) == Concat(chunks)[|front|..];
    }
  }

  /** The 16-byte records of a sequence of pairs, one per pair. */
  function Records(ps: seq<Pair<Word64>>): (rs: seq<seq<bv8>>)
    ensures |rs| == |ps|
    ensures forall k :: 0 <= k < |ps| ==> rs[k] == PairBytes(ps[k])
  {
    seq(|ps|, (k: int) requires 0 <= k < |ps| => PairBytes(ps[k]))
  }

  /** The buffer of a bucket whose values are pointers: pair after pair. */
  function EncodePairs(ps: seq<Pair<Word64>>): (bs: seq<bv8>)
    ensures |bs| == PairSize * |ps|
  {
    if |ps| > 0 then ConcatSlot(Records(ps), 0); Concat(Records(ps))
    else []
  }

  /** The pairs stored in a buffer of whole `kv_t` records. */
  function DecodePairs(bs: seq<bv8>): (ps: seq<Pair<Word64>>)
    requires |bs| % PairSize == 0
    ensures |ps| == |bs| / PairSize
  {
    seq(|bs| / PairSize, (i: int) requires 0 <= i < |bs| / PairSize => PairOf(Slot(bs, i)))
  }

  /** `memmove(buf + dst, buf + src, n)`: n bytes copied as if through a temporary buffer. */
  function MemMove(buf: seq<bv8>, dst: nat, src: nat, n: nat): (r: seq<bv8>)
    requires dst + n <= |buf| && src + n <= |buf|
    ensures |r| == |buf|
    ensures forall i :: dst <= i < dst + n ==> r[i] == buf[src + (i - dst)]
    ensures forall i :: 0 <= i < |buf| && !(dst <= i < dst + n) ==> r[i] == buf[i]
  {
    buf[..dst] + buf[src..src + n] + buf[dst + n..]
  }

  /**
   * `bucket_remove` as written: `memmove` is given `len - idx - 1`, a count
   * of pairs, where it expects a count of bytes, so only that many bytes of
   * the following pairs move down over the removed one before `len` drops.
   */
  function RemoveAsWritten(b: Option<Bucket<Word64>>, idx: nat): (r: Removal<Word64>)
    ensures b.None? || idx >= |b.value.pairs| ==> r == Removal(None, b)
    ensures b.Some? && idx < |b.value.pairs| ==>
      && r.value == Some(b.value.pairs[idx].val)
      && r.bucket.Some?
      && |r.bucket.value.pairs| == |b.value.pairs| - 1
      && r.bucket.value.cap == b.value.cap
  {
    if b.None? || idx >= |b.value.pairs| then Removal(None, b)
    else
      var ps := b.value.pairs;
      var after := DecodePairs(ShortMove(ps, idx));
      Removal(Some(ps[idx].val), Some(Bucket(after[..|ps| - 1], b.value.cap)))
  }

  /** A pair is read back from its own bytes. */
  lemma PairRoundTrip(p: Pair<Word64>)
    ensures PairOf(PairBytes(p)) == p
  {
    var bs := PairBytes(p);
    assert bs[..8] == Bytes64(p.key);
    assert bs[8..] == Bytes64(p.val);
    Word64Bytes64(p.key);
    Word64Bytes64(p.val);
  }

  /** Slot i of an encoded buffer holds pair i's bytes. */
  lemma EncodedSlot(ps: seq<Pair<Word64>>, i: nat)
    requires i < |ps|
    ensures Slot(EncodePairs(ps), i) == PairBytes(ps[i])
  {
    ConcatSlot(Records(ps), i);
  }

  /** Decoding an encoded buffer gives the pairs back. */
  lemma DecodeEncodePairs(ps: seq<Pair<Word64>>)
    ensures DecodePairs(EncodePairs(ps)) == ps
  {
    forall i | 0 <= i < |ps|
      ensures DecodePairs(EncodePairs(ps))[i] == ps[i]
    {
      SlotKept(EncodePairs(ps), ps, i);
    }
  }

  /** A buffer whose slot j still holds the encoded pair j decodes to that pair there. */
  lemma SlotKept(moved: seq<bv8>, ps: seq<Pair<Word64>>, j: nat)
    requires |moved| == PairSize * |ps| && j < |ps|
    requires Slot(moved, j) == Slot(EncodePairs(ps), j)
    ensures DecodePairs(moved)[j] == ps[j]
  {
    EncodedSlot(ps, j);
    PairRoundTrip(ps[j]);
  }

  /** A buffer whose slot j still holds the value bytes of pair j decodes to that value there. */
  lemma SlotValueKept(moved: seq<bv8>, ps: seq<Pair<Word64>>, j: nat)
    requires |moved| == PairSize * |ps| && j < |ps|
    requires Slot(moved, j)[8..] == Slot(EncodePairs(ps), j)[8..]
    ensures DecodePairs(moved)[j].val == ps[j].val
  {
    EncodedSlot(ps, j);
    assert PairBytes(ps[j])[8..] == Bytes64(ps[j].val);
    Word64Bytes64(ps[j].val);
  }

  /** A slot that the moved range does not touch keeps its bytes. */
  lemma MoveMissesSlot(buf: seq<bv8>, dst: nat, src: nat, n: nat, j: nat)
    requires dst + n <= |buf| && src + n <= |buf| && 16 * j + 16 <= |buf|
    requires 16 * j + 16 <= dst || dst + n <= 16 * j
    ensures Slot(MemMove(buf, dst, src, n), j) == Slot(buf, j)
  {
    var moved := MemMove(buf, dst, src, n);
    forall i | 16 * j <= i < 16 * j + 16
      ensures moved[i] == buf[i]
    {}
  }

  /** The buffer `bucket_remove` leaves: `len - idx - 1` bytes moved down onto pair idx. */
  function ShortMove(ps: seq<Pair<Word64>>, idx: nat): (bs: seq<bv8>)
    requires idx < |ps|
    ensures |bs| == PairSize * |ps|
  {
    MemMove(EncodePairs(ps), PairSize * idx, PairSize * (idx + 1), |ps| - idx - 1)
  }

  /** With at most 8 bytes moved, every pair other than idx is decoded unchanged. */
  lemma ShortMoveKeepsOthers(ps: seq<Pair<Word64>>, idx: nat, j: nat)
    requires idx < |ps| <= idx + 9 && j < |ps| && j != idx
    ensures DecodePairs(ShortMove(ps, idx))[j] == ps[j]
  {
    MoveMissesSlot(EncodePairs(ps), PairSize * idx, PairSize * (idx + 1), |ps| - idx - 1, j);
    SlotKept(ShortMove(ps, idx), ps, j);
  }

  /** With at most 8 bytes moved, pair idx keeps its value bytes. */
  lemma ShortMoveKeepsValue(ps: seq<Pair<Word64>>, idx: nat)
    requires idx < |ps| <= idx + 9
    ensures DecodePairs(ShortMove(ps, idx))[idx].val == ps[idx].val
  {
    var enc := EncodePairs(ps);
    var moved := ShortMove(ps, idx);
    assert Slot(moved, idx)[8..] == Slot(enc, idx)[8..];
    SlotValueKept(moved, ps, idx);
  }

  /**
   * What the short `memmove` leaves behind. When at most 8 pairs follow the
   * removed one, the bytes moved only reach into the removed pair's key:
   * its value stays where it was, and no later pair moves down. The removed
   * value is therefore still in the bucket, at `idx`, while the value of the
   * last pair has been cut off by the shorter length.
   */
  lemma RemoveAsWrittenLeavesPairs(b: Bucket<Word64>, idx: nat)
    requires idx + 1 < |b.pairs| <= idx + 9
    ensures RemoveAsWritten(Some(b), idx).bucket.value.pairs[idx].val == b.pairs[idx].val
    ensures forall j :: 0 <= j < |b.pairs| - 1 && j != idx ==>
      RemoveAsWritten(Some(b), idx).bucket.value.pairs[j] == b.pairs[j]
  {
    var ps := b.pairs;
    var after := DecodePairs(ShortMove(ps, idx));
    assert RemoveAsWritten(Some(b), idx).bucket.value.pairs == after[..|ps| - 1];
    ShortMoveKeepsValue(ps, idx);
    forall j | 0 <= j < |ps| - 1 && j != idx
      ensures after[j] == ps[j]
    {
      ShortMoveKeepsOthers(ps, idx, j);
    }
  }

  /**
   * The smallest case: removing the first of two pairs keeps the first
   * pair's value (10) under a key whose low byte now comes from the second
   * key, and the second pair's value (20) is gone; the intended removal
   * leaves exactly the second pair.
   */
  lemma RemoveAsWrittenExample()
    ensures RemoveAsWritten(Some(Bucket([Pair(1, 10), Pair(2, 20)], 4)), 0).bucket.value.pairs[0].val == 10
    ensures Remove(Some(Bucket([Pair(1, 10 as Word64), Pair(2, 20)], 4)), 0).bucket.value.pairs == [Pair(2, 20)]
  {
    RemoveAsWrittenLeavesPairs(Bucket([Pair(1, 10), Pair(2, 20)], 4), 0);
  }
}

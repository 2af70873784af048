/**
 * The chained hash table of src/hashmap.c: a seed and a `container_t` of
 * buckets, where a key lives in bucket `murmur3_32(key) % len`.
 *
 * The table's meaning is captured by `Values(m, k)`: the values stored
 * under key k, in insertion order. Insert appends to it, rehash preserves
 * it, and get returns its first element.
 */
module HashTable {
  import opened Wrappers
  import opened Bytes
  import opened Buckets
  import Murmur3

  /**
   * `container_t`: the entry count `size` and the bucket array; `len` is
   * `|buckets|`, and a NULL `buf` is the empty array (a freshly created
   * table, before its first insert).
   */
  datatype Container<V> = Container(size: nat, buckets: seq<Bucket<V>>)

  /** `hashmap_t`: the hash seed and the buckets. */
  datatype HashMap<V> = HashMap(seed: bv32, table: Container<V>)

  /** The bucket a key belongs in: its 32-bit hash, widened to `size_t`, modulo the bucket count. */
  function Index(seed: bv32, key: Key, len: nat): (i: nat)
    requires len > 0
    ensures i < len
  {
    Unsigned32(Murmur3.HashKey(seed, key)) % len
  }

  /** The pairs the table's loops visit in a bucket: none when the bucket was never allocated. */
  function Contents<V>(b: Bucket<V>): seq<Pair<V>> {
    if b.cap == 0 then [] else b.pairs
  }

  /** Every pair in the table, bucket by bucket, in the order the rehash loop visits them. */
  function Flatten<V>(bs: seq<Bucket<V>>): seq<Pair<V>> {
    if |bs| == 0 then [] else Flatten(bs[..|bs| - 1]) + Contents(bs[|bs| - 1])
  }

  /** Every pair of bucket i hashes to i, for a table of `len` buckets. */
  predicate PlacedIn<V>(seed: bv32, bs: seq<Bucket<V>>, len: nat)
    requires len > 0
  {
    forall i, j :: 0 <= i < |bs| && 0 <= j < |bs[i].pairs| ==> Index(seed, bs[i].pairs[j].key, len) == i
  }

  /** Every bucket's pairs fit in its buffer. */
  predicate AllFit<V>(bs: seq<Bucket<V>>) {
    forall i :: 0 <= i < |bs| ==> Fits(bs[i])
  }

  /** The table's invariant: buffers hold their pairs, pairs sit in their key's bucket, `size` counts them. */
  predicate Valid<V>(m: HashMap<V>) {
    var bs := m.table.buckets;
    && AllFit(bs)
    && (|bs| > 0 ==> PlacedIn(m.seed, bs, |bs|))
    && m.table.size == |Flatten(bs)|
  }

  /** The values stored under `key` among `ps`, in order. */
  function ValuesOf<V>(ps: seq<Pair<V>>, key: Key): seq<V> {
    if |ps| == 0 then []
    else ValuesOf(ps[..|ps| - 1], key) + (if ps[|ps| - 1].key == key then [ps[|ps| - 1].val] else [])
  }

  /** The values the table holds under `key`, oldest first. */
  function Values<V>(m: HashMap<V>, key: Key): seq<V> {
    ValuesOf(Flatten(m.table.buckets), key)
  }

  /** The first element, if any. */
  function First<V>(s: seq<V>): Option<V> {
    if |s| == 0 then None else Some(s[0])
  }

  // ---------------------------------------------------------------------
  // Creation
  // ---------------------------------------------------------------------

  /** `hashmap_new`: no buckets yet; the seed (`time(0)` in the source) is a parameter. */
  function New<V>(seed: bv32): (m: HashMap<V>)
    ensures Valid(m)
    ensures forall key :: Values(m, key) == []
  {
    HashMap(seed, Container(0, []))
  }

  // ---------------------------------------------------------------------
  // Growth and rehash
  // ---------------------------------------------------------------------

  /**
   * `__container_grow`: a zeroed bucket array of `max(4, 2*len, len+1)`
   * buckets, keeping `size`; the old container is untouched.
   */
  function Grow<V>(c: Container<V>): (r: Container<V>)
    ensures r.size == c.size
    ensures |r.buckets| >= Ceiling && |r.buckets| >= 2 * |c.buckets| && |r.buckets| > |c.buckets|
    ensures |r.buckets| == Ceiling || |r.buckets| == 2 * |c.buckets| || |r.buckets| == |c.buckets| + 1
    ensures forall i :: 0 <= i < |r.buckets| ==> r.buckets[i] == Bucket([], 0)
  {
    Container(c.size, seq(Grown(|c.buckets|), _ => Bucket([], 0)))
  }

  /** Push each pair of `ps`, in order, onto the bucket its key hashes to. */
  function PushAll<V>(seed: bv32, bs: seq<Bucket<V>>, ps: seq<Pair<V>>): (r: seq<Bucket<V>>)
    requires |bs| > 0
    ensures |r| == |bs|
  {
    if |ps| == 0 then bs
    else
      var prev := PushAll(seed, bs, ps[..|ps| - 1]);
      var p := ps[|ps| - 1];
      var i := Index(seed, p.key, |bs|);
      prev[i := Push(prev[i], p)]
  }

  /**
   * `__hashmap_rehash`: grow the bucket array, then push every pair of the
   * old buckets, bucket by bucket and in order, into the bucket its key
   * hashes to under the new length.
   */
  function Rehash<V>(m: HashMap<V>): (r: HashMap<V>)
    ensures r.seed == m.seed && r.table.size == m.table.size
    ensures |r.table.buckets| == Grown(|m.table.buckets|)
  {
    var grown := Grow(m.table);
    HashMap(m.seed, Container(grown.size, PushAll(m.seed, grown.buckets, Flatten(m.table.buckets))))
  }

  /** The pairs of `ps` whose key hashes to bucket i of `len`, in order. */
  function Select<V>(seed: bv32, ps: seq<Pair<V>>, i: nat, len: nat): (r: seq<Pair<V>>)
    requires len > 0
    ensures forall j :: 0 <= j < |r| ==> Index(seed, r[j].key, len) == i
  {
    if |ps| == 0 then []
    else
      var p := ps[|ps| - 1];
      Select(seed, ps[..|ps| - 1], i, len) + (if Index(seed, p.key, len) == i then [p] else [])
  }

  // ---------------------------------------------------------------------
  // Facts about the abstraction
  // ---------------------------------------------------------------------

  /** Collecting values distributes over concatenation. */
  lemma {:induction false} ValuesOfAppend<V>(a: seq<Pair<V>>, b: seq<Pair<V>>, key: Key)
    ensures ValuesOf(a + b, key) == ValuesOf(a, key) + ValuesOf(b, key)
    decreases |b|
  {
    if |b| == 0 {
      assert a + b == a;
    } else {
      ValuesOfAppend(a, b[..|b| - 1], key);
      assert (a + b)[..|a + b| - 1] == a + b[..|b| - 1];
    }
  }

  /** No values are stored under a key exactly when no pair carries it. */
  lemma {:induction false} ValuesOfEmpty<V>(ps: seq<Pair<V>>, key: Key)
    ensures ValuesOf(ps, key) == [] <==> forall j :: 0 <= j < |ps| ==> ps[j].key != key
    decreases |ps|
  {
    if |ps| > 0 {
      var n := |ps| - 1;
      ValuesOfEmpty(ps[..n], key);
      assert forall j :: 0 <= j < n ==> ps[..n][j] == ps[j];
    }
  }

  /** A bucket whose buffer holds its pairs is visited in full. */
  lemma ContentsOfFit<V>(b: Bucket<V>)
    requires Fits(b)
    ensures Contents(b) == b.pairs
  {}

  /** Pushing onto a bucket whose buffer holds its pairs makes the pair visible at the end. */
  lemma ContentsPush<V>(b: Bucket<V>, p: Pair<V>)
    requires Fits(b)
    ensures Contents(Push(b, p)) == Contents(b) + [p]
  {}

  /** A bucket array with no pairs at all holds nothing. */
  lemma {:induction false} FlattenOfEmpty<V>(bs: seq<Bucket<V>>)
    requires forall i :: 0 <= i < |bs| ==> bs[i].pairs == []
    ensures Flatten(bs) == []
    decreases |bs|
  {
    if |bs| > 0 {
      FlattenOfEmpty(bs[..|bs| - 1]);
    }
  }

  /** Replacing one bucket changes the pair count by the difference of the two buckets' counts. */
  lemma {:induction false} FlattenLength<V>(bs: seq<Bucket<V>>, i: nat, b: Bucket<V>)
    requires i < |bs|
    ensures |Flatten(bs[i := b])| + |Contents(bs[i])| == |Flatten(bs)| + |Contents(b)|
    decreases |bs|
  {
    var n := |bs| - 1;
    if i == n {
      assert bs[i := b][..n] == bs[..n];
    } else {
      FlattenLength(bs[..n], i, b);
      assert bs[i := b][..n] == bs[..n][i := b];
    }
  }

  /**
   * Locality: in a table whose pairs sit in their key's bucket, the values
   * stored under a key are exactly those in the key's bucket.
   */
  lemma {:induction false} ValuesLocal<V>(seed: bv32, bs: seq<Bucket<V>>, len: nat, key: Key)
    requires 0 < len && |bs| <= len && PlacedIn(seed, bs, len)
    ensures var i := Index(seed, key, len);
      ValuesOf(Flatten(bs), key) == if i < |bs| then ValuesOf(Contents(bs[i]), key) else []
    decreases |bs|
  {
    if |bs| > 0 {
      var n := |bs| - 1;
      var pre := bs[..n];
      var i := Index(seed, key, len);
      var last := Contents(bs[n]);
      PlacedInPrefix(seed, bs, len, n);
      ValuesLocal(seed, pre, len, key);
      assert Flatten(bs) == Flatten(pre) + last;
      ValuesOfAppend(Flatten(pre), last, key);
      if i != n {
        OtherBucketHasNoValues(seed, bs, len, n, key);
        assert ValuesOf(last, key) == [];
        if i < n {
          assert pre[i] == bs[i];
        }
      }
    }
  }

  /** A prefix of a well-placed bucket array is well placed. */
  lemma PlacedInPrefix<V>(seed: bv32, bs: seq<Bucket<V>>, len: nat, n: nat)
    requires 0 < len && n <= |bs| && PlacedIn(seed, bs, len)
    ensures PlacedIn(seed, bs[..n], len)
  {
    assert forall i :: 0 <= i < n ==> bs[..n][i] == bs[i];
  }

  /** A bucket other than the key's own holds no value under the key. */
  lemma OtherBucketHasNoValues<V>(seed: bv32, bs: seq<Bucket<V>>, len: nat, n: nat, key: Key)
    requires 0 < len && n < |bs| && PlacedIn(seed, bs, len) && Index(seed, key, len) != n
    ensures ValuesOf(Contents(bs[n]), key) == []
  {
    var ps := Contents(bs[n]);
    forall j | 0 <= j < |ps|
      ensures ps[j].key != key
    {
      assert ps[j] == bs[n].pairs[j];
      assert Index(seed, ps[j].key, len) == n;
    }
    ValuesOfEmpty(ps, key);
  }

  /** Selecting the pairs of a key's bucket keeps every value stored under that key. */
  lemma {:induction false} ValuesOfSelect<V>(seed: bv32, ps: seq<Pair<V>>, len: nat, key: Key)
    requires len > 0
    ensures ValuesOf(Select(seed, ps, Index(seed, key, len), len), key) == ValuesOf(ps, key)
    decreases |ps|
  {
    if |ps| > 0 {
      var n := |ps| - 1;
      var p := ps[n];
      var i := Index(seed, key, len);
      ValuesOfSelect(seed, ps[..n], len, key);
      var tail := if Index(seed, p.key, len) == i then [p] else [];
      ValuesOfAppend(Select(seed, ps[..n], i, len), tail, key);
      assert ValuesOf(tail, key) == (if p.key == key then [p.val] else []) by {
        if tail != [] {
          assert tail[..0] == [];
        }
      }
    }
  }

  /**
   * Pushing a sequence of pairs appends to each bucket exactly the pairs
   * that hash to it, in order, and keeps every buffer large enough.
   */
  lemma {:induction false} PushAllBuckets<V>(seed: bv32, bs: seq<Bucket<V>>, ps: seq<Pair<V>>)
    requires |bs| > 0
    ensures forall i :: 0 <= i < |bs| ==> PushAll(seed, bs, ps)[i].pairs == bs[i].pairs + Select(seed, ps, i, |bs|)
    ensures AllFit(bs) ==> AllFit(PushAll(seed, bs, ps))
    decreases |ps|
  {
    if |ps| > 0 {
      var n := |ps| - 1;
      PushAllBuckets(seed, bs, ps[..n]);
      forall i | 0 <= i < |bs|
        ensures PushAll(seed, bs, ps)[i].pairs == bs[i].pairs + Select(seed, ps, i, |bs|)
      {
        PushAllStepAt(seed, bs, ps, i);
      }
    }
  }

  /** One step of `PushAll`, seen from bucket i. */
  lemma PushAllStepAt<V>(seed: bv32, bs: seq<Bucket<V>>, ps: seq<Pair<V>>, i: nat)
    requires |bs| > 0 && |ps| > 0 && i < |bs|
    requires PushAll(seed, bs, ps[..|ps| - 1])[i].pairs == bs[i].pairs + Select(seed, ps[..|ps| - 1], i, |bs|)
    ensures PushAll(seed, bs, ps)[i].pairs == bs[i].pairs + Select(seed, ps, i, |bs|)
  {
    var n := |ps| - 1;
    var p := ps[n];
    var k := Index(seed, p.key, |bs|);
    var prev := PushAll(seed, bs, ps[..n]);
    var before := Select(seed, ps[..n], i, |bs|);
    assert PushAll(seed, bs, ps) == prev[k := Push(prev[k], p)];
    assert Select(seed, ps, i, |bs|) == before + (if k == i then [p] else []);
    PushOntoOne(prev, k, p, i, bs[i].pairs, before);
  }

  /** Pushing onto bucket k appends to bucket i exactly when i is k. */
  lemma PushOntoOne<V>(bs: seq<Bucket<V>>, k: nat, p: Pair<V>, i: nat, base: seq<Pair<V>>, before: seq<Pair<V>>)
    requires k < |bs| && i < |bs| && bs[i].pairs == base + before
    ensures bs[k := Push(bs[k], p)][i].pairs == base + (before + (if k == i then [p] else []))
  {
    if k == i {
      assert (base + before) + [p] == base + (before + [p]);
    } else {
      assert before + [] == before;
    }
  }

  /** Pushing pairs onto buckets whose buffers hold their pairs adds exactly that many pairs. */
  lemma {:induction false} PushAllCount<V>(seed: bv32, bs: seq<Bucket<V>>, ps: seq<Pair<V>>)
    requires |bs| > 0 && AllFit(bs)
    ensures |Flatten(PushAll(seed, bs, ps))| == |Flatten(bs)| + |ps|
    decreases |ps|
  {
    if |ps| > 0 {
      var n := |ps| - 1;
      PushAllCount(seed, bs, ps[..n]);
      PushAllBuckets(seed, bs, ps[..n]);
      var prev := PushAll(seed, bs, ps[..n]);
      var p := ps[n];
      var k := Index(seed, p.key, |bs|);
      ContentsPush(prev[k], p);
      FlattenLength(prev, k, Push(prev[k], p));
    }
  }

  /** `__hashmap_rehash` keeps the invariant and every key's values, and only ever grows the table. */
  lemma RehashPreserves<V>(m: HashMap<V>)
    requires Valid(m)
    ensures Valid(Rehash(m))
    ensures forall key :: Values(Rehash(m), key) == Values(m, key)
    ensures |Rehash(m).table.buckets| == Grown(|m.table.buckets|)
  {
    RehashValid(m);
    forall key
      ensures Values(Rehash(m), key) == Values(m, key)
    {
      RehashValues(m, key);
    }
  }

  /** The rehashed buckets fit their pairs, and bucket i holds exactly the old pairs that hash to i, in order. */
  lemma RehashBuckets<V>(m: HashMap<V>)
    ensures var bs := Rehash(m).table.buckets;
      && AllFit(bs)
      && (forall i :: 0 <= i < |bs| ==> bs[i].pairs == Select(m.seed, Flatten(m.table.buckets), i, |bs|))
  {
    var empty := Grow(m.table).buckets;
    PushAllBuckets(m.seed, empty, Flatten(m.table.buckets));
  }

  /** Rehashing keeps every pair: the table holds as many pairs as before. */
  lemma RehashCount<V>(m: HashMap<V>)
    ensures |Flatten(Rehash(m).table.buckets)| == |Flatten(m.table.buckets)|
  {
    var empty := Grow(m.table).buckets;
    PushAllCount(m.seed, empty, Flatten(m.table.buckets));
    FlattenOfEmpty(empty);
  }

  /** Rehashing keeps the invariant. */
  lemma RehashValid<V>(m: HashMap<V>)
    requires Valid(m)
    ensures Valid(Rehash(m))
  {
    var empty := Grow(m.table).buckets;
    var all := Flatten(m.table.buckets);
    var bs := Rehash(m).table.buckets;
    var len := |bs|;
    RehashBuckets(m);
    RehashCount(m);
    forall i, j | 0 <= i < len && 0 <= j < |bs[i].pairs|
      ensures Index(m.seed, bs[i].pairs[j].key, len) == i
    {
      assert bs[i].pairs == Select(m.seed, all, i, len);
    }
  }

  /** Rehashing keeps the values stored under a key, in order. */
  lemma RehashValues<V>(m: HashMap<V>, key: Key)
    requires Valid(m)
    ensures Values(Rehash(m), key) == Values(m, key)
  {
    var all := Flatten(m.table.buckets);
    var bs := Rehash(m).table.buckets;
    var len := |bs|;
    var i := Index(m.seed, key, len);
    RehashBuckets(m);
    RehashValid(m);
    ValuesLocal(m.seed, bs, len, key);
    ContentsOfFit(bs[i]);
    ValuesOfSelect(m.seed, all, len, key);
  }

  // ---------------------------------------------------------------------
  // Lookup
  // ---------------------------------------------------------------------

  /** The linear scan of `hashmap_get`: the value of the first pair with the key. */
  function Find<V>(ps: seq<Pair<V>>, key: Key): (r: Option<V>)
    ensures r.Some? ==> exists j :: 0 <= j < |ps| && ps[j] == Pair(key, r.value)
  {
    if |ps| == 0 then None
    else if ps[0].key == key then Some(ps[0].val)
    else
      var r := Find(ps[1..], key);
      if r.Some? then assert ps[1..][0 + 0] == ps[1]; r else r
  }

  /** The scan finds the first value stored under the key. */
  lemma {:induction false} FindIsFirst<V>(ps: seq<Pair<V>>, key: Key)
    ensures Find(ps, key) == First(ValuesOf(ps, key))
    decreases |ps|
  {
    if |ps| > 0 {
      FindIsFirst(ps[1..], key);
      assert ps == [ps[0]] + ps[1..];
      ValuesOfAppend([ps[0]], ps[1..], key);
      assert [ps[0]][..0] == [];
    }
  }

  /**
   * `hashmap_get`: NULL for a NULL map or one with no buckets yet; otherwise
   * the first value in the key's bucket stored under the key.
   */
  function Get<V>(m: Option<HashMap<V>>, key: Key): (r: Option<V>)
    ensures m.None? ==> r.None?
    ensures m.Some? && |m.value.table.buckets| == 0 ==> r.None?
  {
    if m.None? || |m.value.table.buckets| == 0 then None
    else
      var bs := m.value.table.buckets;
      var b := bs[Index(m.value.seed, key, |bs|)];
      if b.cap == 0 then None else Find(b.pairs, key)
  }

  /** On a valid table, `hashmap_get` returns the oldest value stored under the key, and NULL when there is none. */
  lemma GetIsFirstValue<V>(m: HashMap<V>, key: Key)
    requires Valid(m)
    ensures Get(Some(m), key) == First(Values(m, key))
  {
    var bs := m.table.buckets;
    if |bs| > 0 {
      var i := Index(m.seed, key, |bs|);
      ValuesLocal(m.seed, bs, |bs|, key);
      if bs[i].cap != 0 {
        FindIsFirst(bs[i].pairs, key);
      }
    }
  }

  // ---------------------------------------------------------------------
  // Insertion
  // ---------------------------------------------------------------------

  /** The outcome of `hashmap_insert`: its return flag and the map afterwards. */
  datatype Insertion<V> = Insertion(ok: bool, after: Option<HashMap<V>>)

  /**
   * `hashmap_insert`: refuse a NULL map; otherwise rehash first when the
   * bucket count is at most four times the entry count, then push the pair
   * onto its key's bucket (duplicates included) and count it.
   */
  function Insert<V>(m: Option<HashMap<V>>, key: Key, val: V): (r: Insertion<V>)
    ensures r.ok <==> m.Some?
    ensures r.ok <==> r.after.Some?
    ensures r.ok ==> r.after.value.seed == m.value.seed && r.after.value.table.size == m.value.table.size + 1
    ensures r.ok ==> var before := |m.value.table.buckets|; var after := |r.after.value.table.buckets|;
      && after > 0
      && (before <= 4 * m.value.table.size ==> after == Grown(before))
      && (before > 4 * m.value.table.size ==> after == before)
  {
    if m.None? then Insertion(false, None)
    else
      var h := if |m.value.table.buckets| <= 4 * m.value.table.size then Rehash(m.value) else m.value;
      var bs := h.table.buckets;
      var i := Index(h.seed, key, |bs|);
      Insertion(true, Some(HashMap(h.seed, Container(h.table.size + 1, bs[i := Push(bs[i], Pair(key, val))]))))
  }

  /** Pushing onto a key's bucket of a valid table keeps it valid, given the count goes up by one. */
  lemma PushValid<V>(m: HashMap<V>, key: Key, val: V)
    requires Valid(m) && |m.table.buckets| > 0
    ensures var bs := m.table.buckets; var i := Index(m.seed, key, |bs|);
      Valid(HashMap(m.seed, Container(m.table.size + 1, bs[i := Push(bs[i], Pair(key, val))])))
  {
    var bs := m.table.buckets;
    var i := Index(m.seed, key, |bs|);
    var b := Push(bs[i], Pair(key, val));
    ContentsPush(bs[i], Pair(key, val));
    FlattenLength(bs, i, b);
    PushPlaced(m.seed, bs, key, val);
  }

  /** Pushing a pair onto its key's bucket keeps every pair in its key's bucket. */
  lemma PushPlaced<V>(seed: bv32, bs: seq<Bucket<V>>, key: Key, val: V)
    requires |bs| > 0 && PlacedIn(seed, bs, |bs|)
    ensures var i := Index(seed, key, |bs|);
      PlacedIn(seed, bs[i := Push(bs[i], Pair(key, val))], |bs|)
  {
    var i := Index(seed, key, |bs|);
    var after := bs[i := Push(bs[i], Pair(key, val))];
    forall i', j | 0 <= i' < |after| && 0 <= j < |after[i'].pairs|
      ensures Index(seed, after[i'].pairs[j].key, |bs|) == i'
    {
      if i' == i && j < |bs[i].pairs| {
        assert after[i'].pairs[j] == bs[i].pairs[j];
      }
    }
  }

  /** Pushing onto a key's bucket appends to that key's values and to no other key's. */
  lemma PushValues<V>(m: HashMap<V>, key: Key, val: V, other: Key)
    requires Valid(m) && |m.table.buckets| > 0
    ensures var bs := m.table.buckets; var i := Index(m.seed, key, |bs|);
      ValuesOf(Flatten(bs[i := Push(bs[i], Pair(key, val))]), other)
        == Values(m, other) + (if other == key then [val] else [])
  {
    PushPlacedValues(m.seed, m.table.buckets, Pair(key, val), other);
  }

  /** The same, for any bucket array whose pairs sit in their key's bucket. */
  lemma PushPlacedValues<V>(seed: bv32, bs: seq<Bucket<V>>, p: Pair<V>, other: Key)
    requires |bs| > 0 && AllFit(bs) && PlacedIn(seed, bs, |bs|)
    ensures var i := Index(seed, p.key, |bs|);
      ValuesOf(Flatten(bs[i := Push(bs[i], p)]), other)
        == ValuesOf(Flatten(bs), other) + (if other == p.key then [p.val] else [])
  {
    var len := |bs|;
    var i := Index(seed, p.key, len);
    var after := bs[i := Push(bs[i], p)];
    var j := Index(seed, other, len);
    PushPlaced(seed, bs, p.key, p.val);
    ValuesLocal(seed, bs, len, other);
    ValuesLocal(seed, after, len, other);
    if j == i {
      PushedBucketValues(bs[i], p, other);
    } else {
      assert after[j] == bs[j];
    }
  }

  /** The values under a key in a bucket after a push. */
  lemma PushedBucketValues<V>(b: Bucket<V>, p: Pair<V>, key: Key)
    requires Fits(b)
    ensures ValuesOf(Contents(Push(b, p)), key) == ValuesOf(Contents(b), key) + (if p.key == key then [p.val] else [])
  {
    ContentsPush(b, p);
    ValuesOfAppend(Contents(b), [p], key);
    assert [p][..0] == [];
  }

  /**
   * `hashmap_insert` keeps the invariant, appends the value to those stored
   * under its key, and leaves every other key's values alone.
   */
  lemma InsertUpdatesValues<V>(m: HashMap<V>, key: Key, val: V)
    requires Valid(m)
    ensures var r := Insert(Some(m), key, val).after.value;
      && Valid(r)
      && Values(r, key) == Values(m, key) + [val]
      && forall other :: other != key ==> Values(r, other) == Values(m, other)
  {
    var h := if |m.table.buckets| <= 4 * m.table.size then Rehash(m) else m;
    if |m.table.buckets| <= 4 * m.table.size {
      RehashPreserves(m);
    }
    assert Valid(h) && forall k :: Values(h, k) == Values(m, k);
    PushValid(h, key, val);
    PushValues(h, key, val, key);
    forall other | other != key
      ensures Values(Insert(Some(m), key, val).after.value, other) == Values(m, other)
    {
      PushValues(h, key, val, other);
    }
  }

  /**
   * Round trip: after inserting a key, `hashmap_get` returns the inserted
   * value when the key was absent, and the earlier value otherwise; other
   * keys read as before.
   */
  lemma GetAfterInsert<V>(m: HashMap<V>, key: Key, val: V)
    requires Valid(m)
    ensures Get(Insert(Some(m), key, val).after, key)
      == if Get(Some(m), key).None? then Some(val) else Get(Some(m), key)
    ensures forall other :: other != key ==> Get(Insert(Some(m), key, val).after, other) == Get(Some(m), other)
  {
    var r := Insert(Some(m), key, val).after.value;
    InsertUpdatesValues(m, key, val);
    GetIsFirstValue(m, key);
    GetIsFirstValue(r, key);
    forall other | other != key
      ensures Get(Some(r), other) == Get(Some(m), other)
    {
      GetIsFirstValue(m, other);
      GetIsFirstValue(r, other);
    }
  }

  // ---------------------------------------------------------------------
  // Emptiness and removal
  // ---------------------------------------------------------------------

  /** `hashmap_is_empty`: a NULL map counts as empty; otherwise the entry count is zero. */
  function IsEmpty<V>(m: Option<HashMap<V>>): (r: bool)
    ensures m.None? ==> r
  {
    m.None? || m.value.table.size == 0
  }

  /** On a valid table, emptiness means no key has a value. */
  lemma IsEmptyIffNoValues<V>(m: HashMap<V>)
    requires Valid(m)
    ensures IsEmpty(Some(m)) <==> forall key :: Values(m, key) == []
  {
    var all := Flatten(m.table.buckets);
    if m.table.size == 0 {
      assert all == [];
    } else {
      ValuesOfEmpty(all, all[0].key);
      assert Values(m, all[0].key) != [];
    }
  }

  /**
   * `hashmap_remove` is a stub: it finds nothing and changes nothing (the
   * model returns no new map).
   */
  function Remove<V>(m: Option<HashMap<V>>, key: Key): (r: Option<V>)
    ensures r.None?
  {
    None
  }

  /** The stub misses even a key that `hashmap_get` finds. */
  lemma RemoveMissesStoredKey<V>(m: HashMap<V>, key: Key, val: V)
    requires Valid(m) && Values(m, key) == []
    ensures var r := Insert(Some(m), key, val).after;
      Get(r, key) == Some(val) && Remove(r, key) == None
  {
    GetIsFirstValue(m, key);
    GetAfterInsert(m, key, val);
  }

  // ---------------------------------------------------------------------
  // Deletion
  // ---------------------------------------------------------------------

  /** n copies of v. */
  function Repeat<V>(v: V, n: nat): (r: seq<V>)
    ensures |r| == n && forall i :: 0 <= i < n ==> r[i] == v
  {
    seq(n, _ => v)
  }

  /** The values of a sequence of pairs, in order. */
  function ValsOf<V>(ps: seq<Pair<V>>): (r: seq<V>)
    ensures |r| == |ps| && forall i :: 0 <= i < |ps| ==> r[i] == ps[i].val
  {
    seq(|ps|, i requires 0 <= i < |ps| => ps[i].val)
  }

  /** Whether `v` is the first value of bucket k of `bs`, and that bucket is allocated and holds pairs. */
  ghost predicate FirstValueOf<V>(bs: seq<Bucket<V>>, k: int, v: V) {
    0 <= k < |bs| && bs[k].cap != 0 && |bs[k].pairs| > 0 && bs[k].pairs[0].val == v
  }

  /**
   * `__container_delete_andfree` as written: for each allocated bucket it
   * calls the finalizer once per pair, but always on the bucket's FIRST
   * pair's value.
   */
  function FinalizerCallsAsWritten<V>(bs: seq<Bucket<V>>): (r: seq<V>)
    ensures |r| == |Flatten(bs)|
  {
    if |bs| == 0 then []
    else
      var b := bs[|bs| - 1];
      FinalizerCallsAsWritten(bs[..|bs| - 1]) + if b.cap == 0 || |b.pairs| == 0 then [] else Repeat(b.pairs[0].val, |b.pairs|)
  }

  /**
   * A bucket holding two pairs with different values (a key inserted twice,
   * or two keys that share a bucket) has its first value finalized twice
   * and its second never.
   */
  lemma FinalizerAsWrittenRepeatsFirst<V>(p0: Pair<V>, p1: Pair<V>, cap: nat)
    requires cap >= 2 && p0.val != p1.val
    ensures var bs := [Bucket([p0, p1], cap)];
      && FinalizerCallsAsWritten(bs) == [p0.val, p0.val]
      && ValsOf(Flatten(bs)) == [p0.val, p1.val]
      && multiset(FinalizerCallsAsWritten(bs)) != multiset(ValsOf(Flatten(bs)))
  {
    var bs := [Bucket([p0, p1], cap)];
    assert bs[..0] == [];
    assert Flatten(bs) == [p0, p1];
    assert p1.val !in multiset(FinalizerCallsAsWritten(bs));
  }

  /**
   * As written, every finalizer call gets the first value of an allocated
   * bucket, never any other value: call i comes from bucket k.
   */
  lemma {:induction false} AsWrittenCallSource<V>(bs: seq<Bucket<V>>, i: nat) returns (k: nat)
    requires i < |FinalizerCallsAsWritten(bs)|
    ensures FirstValueOf(bs, k, FinalizerCallsAsWritten(bs)[i])
    decreases |bs|
  {
    var n := |bs| - 1;
    var prefix := FinalizerCallsAsWritten(bs[..n]);
    var b := bs[n];
    var tail := if b.cap == 0 || |b.pairs| == 0 then [] else Repeat(b.pairs[0].val, |b.pairs|);
    assert FinalizerCallsAsWritten(bs) == prefix + tail;
    if i < |prefix| {
      k := AsWrittenCallSource(bs[..n], i);
      assert bs[..n][k] == bs[k];
    } else {
      k := n;
      assert tail[i - |prefix|] == b.pairs[0].val;
    }
  }

  /**
   * As written, an allocated bucket's first value is finalized once for
   * each pair of the bucket: twice or more, a double free with a freeing
   * finalizer, as soon as two pairs share a bucket.
   */
  lemma {:induction false} AsWrittenFinalizesFirstPerPair<V>(bs: seq<Bucket<V>>, k: nat)
    requires k < |bs| && bs[k].cap != 0 && |bs[k].pairs| > 0
    ensures multiset(FinalizerCallsAsWritten(bs))[bs[k].pairs[0].val] >= |bs[k].pairs|
    decreases |bs|
  {
    var n := |bs| - 1;
    var v := bs[k].pairs[0].val;
    var prefix := FinalizerCallsAsWritten(bs[..n]);
    var b := bs[n];
    var tail := if b.cap == 0 || |b.pairs| == 0 then [] else Repeat(b.pairs[0].val, |b.pairs|);
    assert FinalizerCallsAsWritten(bs) == prefix + tail;
    if k == n {
      assert tail == Repeat(v, |b.pairs|);
      assert multiset(tail)[v] == |b.pairs| by {
        RepeatCount(v, |b.pairs|);
      }
    } else {
      assert bs[..n][k] == bs[k];
      AsWrittenFinalizesFirstPerPair(bs[..n], k);
    }
  }

  /** n copies of v contain v n times. */
  lemma {:induction false} RepeatCount<V>(v: V, n: nat)
    ensures multiset(Repeat(v, n))[v] == n
  {
    if n > 0 {
      assert Repeat(v, n) == Repeat(v, n - 1) + [v];
      RepeatCount(v, n - 1);
    }
  }

  /** The finalizer calls `__container_delete_andfree` evidently intends: each pair's own value, bucket by bucket. */
  function FinalizerCalls<V>(bs: seq<Bucket<V>>): (r: seq<V>)
    ensures r == ValsOf(Flatten(bs))
  {
    if |bs| == 0 then []
    else FinalizerCalls(bs[..|bs| - 1]) + ValsOf(Contents(bs[|bs| - 1]))
  }

  /**
   * `hashmap_delete`, with the finalizer called as intended: the values
   * handed to `val_free` (present when `finalize`), nothing for a NULL map.
   * Every stored value is finalized exactly once.
   */
  function Delete<V>(m: Option<HashMap<V>>, finalize: bool): (calls: seq<V>)
    ensures m.None? || !finalize ==> calls == []
    ensures m.Some? && finalize ==> multiset(calls) == multiset(ValsOf(Flatten(m.value.table.buckets)))
    ensures m.Some? && finalize && Valid(m.value) ==> |calls| == m.value.table.size
  {
    if m.None? || !finalize then [] else FinalizerCalls(m.value.table.buckets)
  }

  /**
   * `hashmap_delete` as written: the finalizer runs once per stored pair,
   * so `size` times on a valid table; `AsWrittenCallSource` says which
   * value each call gets.
   */
  function DeleteAsWritten<V>(m: Option<HashMap<V>>, finalize: bool): (calls: seq<V>)
    ensures m.None? || !finalize ==> calls == []
    ensures m.Some? && finalize && Valid(m.value) ==> |calls| == m.value.table.size
  {
    if m.None? || !finalize then [] else FinalizerCallsAsWritten(m.value.table.buckets)
  }
}

# A Dafny model of the hash table and the bump arena

This project models the two sequential components of a small C library.

- **The hash table** (`src/hashmap.c`). Keys are `size_t` values. A key is placed in bucket
  `murmur3_32(key bytes, 8, seed) % bucket count`. Buckets are growable arrays of
  `(key, value)` pairs. Duplicate keys are allowed, and lookup returns the oldest pair.
- **The per-thread bump arena** (`src/arena.c`). Allocation aligns an offset to 16 bytes and
  asks for one more page when the header-inclusive size reaches the committed size. That
  page is mapped at `arena + page_size`, which is pointer arithmetic on `arena_t *`: it lands
  `48 * page_size` bytes into the reservation, not after the first page. A block that
  reaches past the first page therefore faults in `memset` unless it lies inside those
  growth pages. A chain of checkpoints ("temporary arenas") records saved offsets. While the
  chain's tail pointer is set, the arena is Locked and refuses persistent allocations.
- **The registry** of arenas, keyed by thread id. It is built on the hash table and modelled
  sequentially.

Files and modules (one module per file):

| file | module | contents |
|---|---|---|
| `wrappers.dfy` | `Wrappers` | `Option` |
| `bytes.dfy` | `Bytes` | little-endian byte encodings of 32- and 64-bit words; the `uint32_t` to `size_t` widening |
| `murmur3.dfy` | `Murmur3` | MurmurHash3 x86_32 as a `bv32` function, the C loops as methods, reference values |
| `buckets.dfy` | `Buckets` | `bucket_t`, reserve/push/remove, and `bucket_remove` as written on a byte buffer |
| `hashtable.dfy` | `HashTable` | the table, grow, rehash, get, insert, is_empty, the remove stub, delete's finalizer calls |
| `align.dfy` | `Align` | `is_power_of_two` and `align` on 64-bit words; alignment on naturals |
| `arena.dfy` | `Arena` | offsets, paging, allocation, clear, checkpoints and the lock state machine |
| `registry.dfy` | `Registry` | `global_*`, the registration step of `arena_new`, and `arena_delete` |

Modelling choices:

- C structures become immutable datatypes, and every C function becomes a pure function of
  its inputs.
- A NULL pointer argument is an `Option`.
- The table's meaning is `HashTable.Values(m, k)`: the values stored under key `k`, in the
  order the table's own loops visit them. That order is also their insertion order.
- Equal `Values` for every key means equal multisets of `(key, value)` pairs, so per-key
  equality is how "rehash preserves the pairs" is stated.
- The arena's checkpoint list is the sequence of saved offsets reachable from `first`.
- The arena's `last` pointer is `Null`, `Tail` (the last reachable node) or
  `Stale(offset)`. `Stale` is a node no longer reachable after a mid-chain delete.
- The buffer's bytes are a map from offset to byte. Allocation zeroes its block, a new
  mapping resets the growth pages to zero, and a checkpoint writes its 24-byte node and the
  8-byte link in `last->next` into them, little-endian.
- Writing outside the mapped pages is an outcome of its own, `Fault`, beside NULL and exit.
- The target is fixed to little-endian 64-bit:
  - `size_t` is 8 bytes, `kv_t` is 16 bytes, `arena_t` is 48 bytes and `arena_temp_t` is 24 bytes;
  - `DEFAULT_ALIGNMENT` is 16;
  - `MAX_ALLOC_SPACE` is 32 GiB.
- `size_t` sums in the allocator wrap modulo 2^64. `uint32_t` hash arithmetic is `bv32`.

## Model

| member | source | states |
|---|---|---|
| Murmur3.Murmur3_32 | src/hashmap.c:48-83 | The C procedure (4-byte block loop, tail loop, finalisation) returns exactly the MurmurHash3 x86_32 value of the key bytes and seed. It is total and deterministic. |
| Murmur3.MixBlocks | src/hashmap.c:53-61 | The block loop runs `len >> 2` times. It leaves the read position at `len - len % 4` and the state equal to every complete block folded in, front to back. |
| Murmur3.ReadTail | src/hashmap.c:64-68 | The tail loop builds the word of the last `len & 3` bytes. |
| Murmur3.TailWordIsLittleEndian | src/hashmap.c:64-68 | The tail loop's word equals the tail bytes, zero-padded to four, read little-endian. The backwards shift-and-or places the first tail byte lowest. |
| Murmur3.ScrambleVanishesOnlyAtZero | src/hashmap.c:41-46 | `murmur_32_scramble(k)` is 0 exactly when `k` is 0: both multipliers are odd and the rotation loses no bit, so a non-zero block always changes the state it is folded into. |
| Murmur3.ScrambleZero | src/hashmap.c:41-46 | `murmur_32_scramble(0) == 0`. |
| Murmur3.FinishWithoutTail | src/hashmap.c:73-82 | With a zero tail word, folding in the scrambled tail leaves `h` unchanged. Only the finalisation remains. |
| Murmur3.NoTailWhenAligned | src/hashmap.c:63-83 | When `len % 4 == 0`, the tail word is 0 and the hash is the block loop followed directly by the finalisation. |
| Murmur3.KeyHashIsTwoBlocks | src/hashmap.c:238-242 | A `size_t` key is hashed as exactly its two 4-byte halves, in memory order, with length 8 and no tail. |
| Murmur3.EmptyInputReference | src/hashmap.c:48-83 | The empty input hashes to 0 under seed 0, to 0x514e28b7 under seed 1 and to 0x81f16f39 under seed 0xffffffff. These are the published MurmurHash3 x86_32 values. |
| Murmur3.ZeroBlockReference | src/hashmap.c:48-83 | Four zero bytes hash to 0x2362f9de under seed 0 (published value). |
| Murmur3.OneBlockReference | src/hashmap.c:48-83 | "aaaa" hashes to 0x5a97808a under seed 0x9747b28c (published value). |
| Murmur3.ThreeByteTailReference | src/hashmap.c:48-83 | "abc", a tail only, hashes to 0xc84a62dd under seed 0x9747b28c (published value). |
| Murmur3.OneByteTailReference | src/hashmap.c:48-83 | "a" hashes to 0x7fa09ea6 under seed 0x9747b28c (published value). |
| Buckets.Max | src/hashmap.c:93-98 | `max` returns one of its arguments, and it is at least both: the larger one. |
| Buckets.Grown | src/hashmap.c:141-144 | The growth size is one of 4, `2n` and `n+1`. It is at least each of them, so it always exceeds `n`. |
| Buckets.Reserve | src/hashmap.c:100-110 | Reserving keeps the pairs. The new capacity is at least 4, at least `2*cap` and more than `len`, and it equals one of these three. |
| Buckets.Push | src/hashmap.c:121-129 | The new pair comes after the unchanged earlier pairs, and `len <= cap` is preserved. A bucket that is not full keeps its capacity. |
| Buckets.PushOntoFull | src/hashmap.c:100-124 | Pushing onto a full bucket reserves first: the new capacity is exactly `Reserve`'s, which is `max(4, 2*cap, len+1)`. |
| Buckets.Remove | src/hashmap.c:112-119 | The intended `bucket_remove`. A NULL bucket or `idx >= len` gives NULL and no change. Otherwise it returns `pairs[idx].val` and `len` drops by one. The pairs before `idx` stay, the later ones shift down by one, and the multiset of pairs loses exactly the removed pair. |
| Buckets.RemoveAfterPush | src/hashmap.c:112-129 | Removing the pair just pushed returns its value and gives back the previous pairs. |
| Buckets.DecodeEncodePairs | src/hashmap.c:15-24 | Laying pairs out as 16-byte `kv_t` records and reading them back gives the same pairs. This is the byte view the as-written removal works on. |
| Buckets.RemoveAsWritten | src/hashmap.c:112-119 | `bucket_remove` as written has the same NULL and out-of-range behaviour and returns the same value. Its remaining pairs are the 16-byte records left after `memmove` shifts only `len-idx-1` bytes, with one pair fewer. |
| Buckets.RemoveAsWrittenLeavesPairs | src/hashmap.c:116-117 | When 1 to 8 pairs follow `idx`, the as-written removal keeps the removed value at `idx` and every other surviving slot unchanged. The last pair is cut off instead of the removed one. |
| Buckets.RemoveAsWrittenExample | src/hashmap.c:116-117 | Removing the first of two pairs with values 10 and 20 keeps value 10 in the bucket. The intended removal keeps exactly the second pair. |
| HashTable.Index | src/hashmap.c:238-245 | The bucket index of any key is below the bucket count, which must be positive. |
| HashTable.New | src/hashmap.c:206-216 | A new table, with the seed as a parameter, is valid and holds no values. |
| HashTable.Grow | src/hashmap.c:141-156 | The grown container keeps `size` and has `max(4, 2*len, len+1)` zeroed buckets, so strictly more than before. |
| HashTable.Rehash | src/hashmap.c:228-261 | Rehashing keeps the seed and `size`. The bucket count becomes exactly `Grown(len)`, that is `max(4, 2*len, len+1)`. |
| HashTable.RehashPreserves | src/hashmap.c:228-261 | Rehashing a valid table gives a valid table with `Grown(len)` buckets, where every pair sits in bucket `hash(key) % newLen` and `size` counts the pairs. Every key keeps the same values in the same order, so the multiset of pairs and the relative order of pairs sharing a key are preserved. |
| HashTable.RehashBuckets | src/hashmap.c:230-253 | Each new bucket holds exactly the old pairs that hash to it, in the visiting order, and every new buffer holds its pairs. |
| HashTable.ValuesOfSelect | src/hashmap.c:245-252 | Selecting the pairs that hash to a key's bucket keeps all of that key's values, in order. |
| HashTable.ValuesLocal | src/hashmap.c:273-284 | In a table where every pair sits in its key's bucket, the values under a key are exactly those in the key's own bucket, which justifies searching one bucket. |
| HashTable.Find | src/hashmap.c:279-284 | A value the scan returns belongs to a pair of the bucket that carries the key. |
| HashTable.FindIsFirst | src/hashmap.c:278-287 | The linear scan returns the first value stored under the key in the bucket, or NULL when there is none. |
| HashTable.Get | src/hashmap.c:263-288 | `hashmap_get` returns NULL for a NULL map and for a map whose buckets are not yet allocated. |
| HashTable.GetIsFirstValue | src/hashmap.c:263-288 | On a valid table, `hashmap_get` returns the oldest value stored under the key, or NULL when the key is missing. |
| HashTable.Insert | src/hashmap.c:290-314 | Insert on NULL returns false and gives no map; otherwise it returns true and `size` grows by exactly one. Afterwards the bucket count is positive, so the index modulus never divides by zero. When `len <= 4*size` beforehand, the bucket count becomes exactly `Grown(len)`, that is `max(4, 2*len, len+1)`; otherwise it stays the same. |
| HashTable.InsertUpdatesValues | src/hashmap.c:290-314 | Insert keeps the table valid. It appends the value to the key's values, without deduplication, and leaves every other key's values unchanged. |
| HashTable.GetAfterInsert | src/hashmap.c:263-314 | After `insert(k, v)`, `get(k)` is `v` if `k` was absent and the earlier value otherwise. Other keys read as before. |
| HashTable.IsEmpty | src/hashmap.c:320-322 | A NULL map counts as empty. |
| HashTable.IsEmptyIffNoValues | src/hashmap.c:320-322 | On a valid table, `hashmap_is_empty` holds exactly when no key has a value. |
| HashTable.Remove | src/hashmap.c:316-318 | `hashmap_remove` always returns NULL and changes nothing. |
| HashTable.RemoveMissesStoredKey | src/hashmap.c:290-318 | Right after a key is inserted, `hashmap_get` finds it but `hashmap_remove` still returns NULL. |
| HashTable.FinalizerCallsAsWritten | src/hashmap.c:181-199 | As written, the finalizer is called once per stored pair of every allocated bucket. |
| HashTable.AsWrittenCallSource | src/hashmap.c:184-189 | As written, every finalizer call gets the first value of an allocated, non-empty bucket, and never any other stored value. |
| HashTable.AsWrittenFinalizesFirstPerPair | src/hashmap.c:184-189 | As written, the first value of an allocated bucket is finalized at least as many times as the bucket holds pairs. With two pairs in one bucket that is a double finalization. |
| HashTable.FinalizerAsWrittenRepeatsFirst | src/hashmap.c:186-189 | For a bucket holding two different values, the as-written calls finalize the first value twice and never the second. |
| HashTable.FinalizerCalls | src/hashmap.c:181-199 | The intended finalizer calls are each stored pair's own value, bucket by bucket. |
| HashTable.Delete | src/hashmap.c:218-226 | With the intended finalizer, `hashmap_delete` calls it on exactly the multiset of stored values, `size` times on a valid table. A NULL map or a missing finalizer makes no calls. |
| HashTable.DeleteAsWritten | src/hashmap.c:218-226 | As written, delete with a finalizer calls it exactly `size` times on a valid table. Which values it gets is what `AsWrittenCallSource` states. A NULL map or a missing finalizer makes no calls. |
| Align.PowerOfTwoIffSingleBit | src/arena.c:319 | For a word with bit `k` set, `is_power_of_two` holds exactly when that is the only set bit. |
| Align.ZeroAccepted | src/arena.c:319 | `is_power_of_two(0)` holds. |
| Align.DefaultAlignmentAccepted | src/arena.c:61 | `DEFAULT_ALIGNMENT` passes the assertion in `align`. |
| Align.AlignWordAligned | src/arena.c:303-317 | `align(p, 16)` on words is a multiple of 16. |
| Align.AlignWordNear | src/arena.c:303-317 | Below the last aligned word, `align(p, 16)` lies in `[p, p+16)`. |
| Align.AlignWordKeepsAligned | src/arena.c:303-317 | An already aligned word is returned unchanged. |
| Align.AlignWordZero | src/arena.c:303-319 | Alignment 0 passes `is_power_of_two`, and `align` then maps every pointer to 0. |
| Align.AlignUp | src/arena.c:303-317 | Aligning a natural offset to `a > 0` gives a multiple of `a` in `[p, p+a)`. |
| Align.AlignUpIsLeast | src/arena.c:303-317 | The aligned offset is the smallest multiple of `a` that is at least `p`. |
| Align.AlignUpIdempotent | src/arena.c:303-317 | Aligning twice is aligning once. |
| Arena.LittleEndianNonZero | src/arena.c:375-378 | A non-zero value below `256^n`, stored as `n` little-endian bytes, has a non-zero byte. This is how a pointer stored by the node copy or the link shows in memory. |
| Arena.New | src/arena.c:205-244 | A new arena at address `base` is valid and Unlocked, with offset 0, one page, and every byte zero. |
| Arena.MapNewPage | src/arena.c:321-338 | The result is OUT_OF_VIRT exactly when the new arena size reaches `MAX_ALLOC_SPACE - page_size`. It is ALLOC_FAILED exactly when it does not and the mapping fails. |
| Arena.AllocUnchecked | src/arena.c:275-301 | On success, the start is 16-aligned in `[offset, offset+16)` and the offset moves to `start+size`. The block is writable and reads zero. Outside it, bytes keep their values, except that the growth pages read zero after a page was added. The chain and lock state are untouched. At most one page is added, and only when `48 + start + size >= page_size * num_pages`. NULL and exit happen exactly when that test fires and the page mapping fails or runs out of address space. The outcome is a fault exactly when `memset` would write outside the mapped pages: the first page, or the growth pages once mapped. |
| Arena.AllocChecked | src/arena.c:266-273 | A Locked arena gives NULL and no change. An Unlocked one behaves exactly as `alloc_unchecked`. |
| Arena.TempAlloc | src/arena.c:388-390 | A checkpoint allocation is an unchecked allocation on its arena. On a Locked arena it can succeed where a persistent allocation is refused, and the arena stays Locked. |
| Arena.AllocPreservesValid | src/arena.c:275-301 | A successful allocation keeps the arena valid and never moves the offset backwards. |
| Arena.SuccessiveAllocationsDisjoint | src/arena.c:275-301 | Two successive allocations do not overlap. |
| Arena.LargeRequestNeverSucceeds | src/arena.c:280-298 | A request of more than two pages never returns a pointer, because no mapping the arena makes can hold it. |
| Arena.GrowthMapsElsewhere | src/arena.c:321-330 | On a fresh arena, a request that overflows the first page but fits in two maps its page successfully and still faults. The new page lies `48 * page_size` bytes in, not after the first page. |
| Arena.BigAllocFaults | test/unit/check_bamboo.c:15-20 | The `big_alloc` request of 800 000 000 bytes, on a fresh arena with 4096-byte pages, maps its page and then faults, so it never returns the non-NULL pointer the test expects. |
| Arena.CeilingIgnoresSize | src/arena.c:321-325 | The address-space ceiling compares the arena's size before the request, never the request. On a fresh arena, a request larger than the whole 32 GiB reservation does not exit: it faults once its page is mapped, or gets NULL. |
| Arena.WrappedSizeSkipsGrowth | src/arena.c:280-298 | A request of `2^64 - 16` bytes wraps the size test below the committed size. No page is asked for and no ceiling is checked, and the outcome is a fault whatever the mapping would do. |
| Arena.OnlyFirstPageUsed | src/arena.c:275-298 | With a 16-aligned page size, an allocation from an offset inside the first page that succeeds ends inside the first page again. The growth pages are never reached from there. |
| Arena.BlockBelowGrowthEnd | src/arena.c:275-298 | A non-empty block handed out ends below the end of the growth mapping, the highest byte the arena maps. |
| Arena.Clear | src/arena.c:352-359 | Clearing sets the offset to 0 and empties the chain, which Unlocks the arena. It keeps the page size, page count and bytes. |
| Arena.LinkField | src/arena.c:376-378 | The `last->next` field exists exactly when the arena is Locked, and lies 16 bytes into the node `last` points at, reachable or stale. |
| Arena.WriteNode | src/arena.c:375-378 | The node's 24 bytes are copied to its block, the link bytes go to `last->next` when `last` is set, and every other byte is unchanged. |
| Arena.Link | src/arena.c:375-382 | Linking a carved node keeps the allocation's offset, pages and address and Locks the arena. The node is appended at the tail, becomes `first` on an empty chain, or, after a stale tail, becomes the new stale `last`. The bytes are written as `WriteNode` states. |
| Arena.TempNew | src/arena.c:361-386 | A checkpoint saves the offset from before its node is carved, with the offset and pages its unchecked allocation leaves. The node holds `saved_offset`, the arena's address and a NULL `next`, and the node's address is stored in `last->next`. The node is appended at the tail or becomes `first` on an empty chain. The arena is Locked afterwards, and after a stale tail the new node is unreachable. It fails with NULL, exit or a fault exactly when its unchecked allocation does. |
| Arena.TempNewPreservesValid | src/arena.c:361-386 | Creating a checkpoint keeps the arena valid: saved offsets strictly increase and `first == NULL` iff `last == NULL`. The offset strictly increases. |
| Arena.TempEq | src/arena.c:422-427 | Two handles compare equal exactly when they are the same handle, i.e. saved the same offset. |
| Arena.FindSaved | src/arena.c:405-414 | The walk stops at the first node at or after `from` that matches the handle. No earlier node matches, and without a stop no node from `from` on matches. |
| Arena.TempDelete | src/arena.c:392-420 | An empty chain means no change. Otherwise the offset is restored to the saved offset. Matching the first node empties the chain and Unlocks the arena. Otherwise the chain is cut before the first later node with that saved offset, keeping the lock state. The only bytes that change are the 8 bytes of the `next` field that the walk clears, which become zero. |
| Arena.TempDeletePreservesValid | src/arena.c:392-420 | Deleting a checkpoint of the chain, or one saved after every node in it, keeps the arena valid. |
| Arena.LockStateMachine | src/arena.c:266-273 | The lock rules: checked allocation fails when Locked, creating a checkpoint Locks, deleting the first checkpoint or clearing Unlocks, and any other delete keeps the arena Locked. |
| Arena.TempEqSinglesOut | src/arena.c:422-427 | Because saved offsets strictly increase, equality by saved offset matches at most one node of the chain. |
| Arena.MidDeleteLeavesStaleTail | src/arena.c:406-416 | Deleting a later checkpoint keeps the prefix but leaves `last` at the removed tail, so the arena stays Locked. A checkpoint created afterwards is not reachable from `first`. |
| Arena.LinkWritesNonZero | src/arena.c:376-378 | On a Locked arena whose addresses fit in 64 bits, a new checkpoint stores a non-zero byte into `last->next`. |
| Arena.StaleLinkClobbersAllocation | src/arena.c:373-382 | After the final checkpoint of a chain of two is deleted, `last` is stale. The next allocation of at least 24 bytes gets exactly the freed node's bytes, and its bytes 16 to 24 read zero. The next checkpoint then writes a non-zero byte among those 8 bytes of the live block. |
| Arena.NestedCheckpointsRestore | src/arena.c:361-420 | Take checkpoint A, allocate X, take checkpoint B, allocate Y, then delete B and A. Deleting B restores the offset at which X ended, keeps only A, and keeps the arena Locked. Deleting A restores the original offset and ends Unlocked with an empty chain. |
| Registry.Exists | src/arena.c:72-75 | `global_exists` holds exactly when the registry is not in its initial, never-used state. |
| Registry.Table | src/arena.c:80-92 | `global_get` returns the existing table, or creates a valid empty one. |
| Registry.Insert | src/arena.c:109-116 | `global_insert` always succeeds and leaves a table. |
| Registry.Remove | src/arena.c:118-126 | `global_remove` always returns NULL, because it relies on the `hashmap_remove` stub. |
| Registry.View | src/arena.c:128-136 | `global_view` returns NULL without a table, and otherwise the arena first registered for the thread. |
| Registry.IsEmpty | src/arena.c:138-145 | `global_is_empty` holds without a table, and otherwise exactly when no thread has an arena. |
| Registry.Free | src/arena.c:94-107 | `global_free` leaves no table. |
| Registry.InsertThenView | src/arena.c:109-136 | After registering an arena, the thread views it, or its earlier arena if it had one, and the registry is not empty. |
| Registry.NewArenaFor | src/arena.c:205-244 | Registering a mapped arena never takes the "one arena per thread" exit, since insertion fails only on a NULL table. It succeeds exactly when the mapping did. |
| Registry.Delete | src/arena.c:340-350 | `arena_delete` returns at its NULL check and leaves the registry as it was. |
| Registry.DeleteLeavesArenaRegistered | src/arena.c:340-350 | After a thread's arena is created and deleted, the thread still views that arena, and the registry never empties. |

## Left out

- Virtual memory: `mmap`, `munmap`, `sysconf` and `__reserve_mem` are system calls.
- The `mmap` call in `__map_new_page`: the place and extent of its mapping are modelled (`Arena.GrowthStart`, `Arena.GrowthEnd`), and its success is the `mapped` parameter.
- `munmap` failure handling in `arena_delete`: that code is unreachable after the early return.
- The registry's pthread mutex and double-checked lazy initialisation: these are concurrency. The registry is a sequential value, and the caller's thread id is a parameter.
- Logging: `print_arena`, `print_linked_list`, `dbg` and the `__logln_*` calls only produce output.
- `arena_alloc`, the lazy `arena_new` inside `arena_temp_new`, and the `global_view` lookup in `arena_clear`: these compose the registry with the modelled operations. They are not separate functions here.
- `arena_new`'s page-size query and mapping: the page size and the mapping's success are parameters, and the arena's address is an opaque `ArenaRef`.
- `arena_free` (include/arena.h:37): a no-op.
- `src/main.c`, `src/string2.c`, `src/vector.h`, `alloc.h` and `error.h`: demo I/O, thin wrappers, stubs and macros.
- The unit-test scaffolding: `__calc_index`, used by the `hash_works` test, is not part of this model. Its property, an index below the bucket count, is `HashTable.Index`'s contract.
- The `time(0)` seed of `hashmap_new`: a parameter.
- Memory allocation failure in `hashmap_new`, `__bucket_reserve` and `__container_grow`: the source ends the process through `handle_error`, and the model assumes every allocation succeeds.
- The NULL check on `temp` in `arena_temp_delete` comes after `temp->arena` is dereferenced. A `Temp` is a value and cannot be NULL, so that crash path is not modelled.
- Values stored as NULL pointers are indistinguishable from absent keys in `hashmap_get`. The model's values are arbitrary, and `Get` returns `Some(v)` for a stored value.
- Integer overflow of `cap * 2`, `len * 2` and `page_size * num_pages`: capacities, bucket counts and page products are unbounded naturals.
- Arena.AllocUnchecked: the offset is `start + size` only when that sum stays below 2^64. Beyond that only its wrapped range is stated.
- Arena.AllocUnchecked: faults are outcomes, not crashes. Nothing after a `Fault` is modelled, and bytes are written only where the block is writable.
- Arena.AllocUnchecked: the buffer's address is taken to be 16-aligned, so aligning the address is aligning the offset (`AlignUp(offset, 16)`).
- The address-space ceiling in `__map_new_page` (src/arena.c:323) is modelled as written. It compares the arena's size before the request and ignores the request's size, and the `size_t` sum in the growth test wraps. `Arena.CeilingIgnoresSize` and `Arena.WrappedSizeSkipsGrowth` exhibit both; no corrected allocator is modelled, because the rest of the model follows the code.
- The checkpoint chain is kept as a sequence of saved offsets. The nodes' bytes are written into the buffer, but the chain is not read back from them, so a program store over a node's `next` field does not change the modelled chain.
- Arena.TempNew: requires that a `last` marked as the reachable tail has a chain to end, which every valid arena satisfies. Pointer values are unbounded naturals; `Arena.LinkWritesNonZero` asks that they fit in 64 bits.
- Align.AlignWord: only the default alignment 16 and alignment 0 are proved about the word version. The general power-of-two statement is `Align.AlignUp` on naturals, and the two are not formally linked.
- HashTable.RehashPreserves: the multiset of pairs is stated as per-key value sequences, plus the pair count through `Valid`, rather than as a `multiset` of pairs. Per-key sequences determine that multiset.
- HashTable.Remove: the stub's "changes nothing" is expressed by `Remove` returning no new map.
- The little-endian 64-bit target is fixed, so byte orders and structure sizes are constants.

## Findings

| source | as written | input that shows it | evidently intended | confidence | as-written member | corrected member |
|---|---|---|---|---|---|---|
| src/hashmap.c:116 | `memmove` in `bucket_remove` is given `len - idx - 1`, a count of pairs, as its byte count, so at most a few bytes move and the removed value stays in the bucket while the last pair is cut off | a bucket `[(1,10), (2,20)]`, remove index 0: the remaining pair still has value 10 | move `(len - idx - 1) * sizeof(kv_t)` bytes, closing the gap | not executed | Buckets.RemoveAsWritten, Buckets.RemoveAsWrittenExample | Buckets.Remove |
| src/hashmap.c:188 | `__container_delete_andfree` calls `val_free(bucket->pairs->val)` inside the loop over `j`, finalizing the bucket's first value `len` times | a bucket holding two pairs with different values: the first is finalized twice, the second never | call `val_free(bucket->pairs[j].val)` for each pair | not executed | HashTable.FinalizerCallsAsWritten, HashTable.FinalizerAsWrittenRepeatsFirst, HashTable.AsWrittenFinalizesFirstPerPair | HashTable.FinalizerCalls, HashTable.Delete |

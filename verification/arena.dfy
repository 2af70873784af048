/**
 * The bump arena of src/arena.c as offset arithmetic: an offset into the
 * arena's buffer, the mapped page count, the chain of temporary-arena
 * checkpoints, each remembered by the offset it saved, and the buffer's
 * bytes.
 *
 * Offsets are relative to the arena's buffer, which starts `sizeof(arena_t)`
 * bytes into a page-aligned mapping and is therefore 16-byte aligned, so
 * aligning the buffer address plus the offset is aligning the offset. The
 * mapping's address only matters where it is stored as a pointer value.
 *
 * Memory follows the mappings the code makes: `__reserve_mem` reserves the
 * whole range without access, `arena_new` commits the first page, and
 * `__map_new_page` maps two pages far from the end of the committed ones.
 * A `memset` outside what is mapped faults.
 */
module Arena {
  import opened Wrappers
  import opened Align

  /** `sizeof(arena_t)` on a 64-bit target: the header before the buffer. */
  const HeaderSize: nat := 48
  /** `sizeof(arena_temp_t)` on a 64-bit target. */
  const TempSize: nat := 24
  /** `offsetof(arena_temp_t, next)`: the link follows `saved_offset` and `arena`. */
  const NextField: nat := 16
  /** The width of a pointer or `size_t` field. */
  const WordSize: nat := 8
  /** `DEFAULT_ALIGNMENT`, `2 * sizeof(void *)`. */
  const Alignment: nat := 16
  /** `MAX_ALLOC_SPACE` on a 64-bit target: 32 GiB of reserved address space. */
  const MaxAllocSpace: nat := 34359738368
  /** `size_t` and `uintptr_t` arithmetic is modulo 2^64. */
  const WordRange: nat := 0x1_0000_0000_0000_0000

  /** A `size_t` sum. */
  function Add64(x: int, y: int): (r: nat)
    ensures r < WordRange
    ensures 0 <= x + y < WordRange ==> r == x + y
  {
    (x + y) % WordRange
  }

  /** A `size_t` difference. */
  function Sub64(x: int, y: int): (r: nat)
    ensures r < WordRange
    ensures 0 <= x - y < WordRange ==> r == x - y
  {
    (x - y) % WordRange
  }

  /** A byte of the buffer. */
  type Byte = b: nat | b < 256

  /** 256^n, the number of values `n` bytes can hold. */
  function Pow256(n: nat): nat {
    if n == 0 then 1 else 256 * Pow256(n - 1)
  }

  /**
   * The `n` bytes that hold `x` in a field `n` bytes wide, least
   * significant first (the target is little-endian); a value that does
   * not fit keeps only its low bytes, as a store into a `size_t` does.
   */
  function LittleEndian(x: nat, n: nat): (bs: seq<Byte>)
    ensures |bs| == n
  {
    if n == 0 then [] else [x % 256] + LittleEndian(x / 256, n - 1)
  }

  /** A value that fits in `n` bytes and is not zero has a non-zero byte. */
  lemma {:induction false} LittleEndianNonZero(x: nat, n: nat)
    requires 0 < x < Pow256(n)
    ensures exists k :: 0 <= k < n && LittleEndian(x, n)[k] != 0
  {
    assert n > 0;
    if x % 256 == 0 {
      var q := x / 256;
      assert x == 256 * q;
      LittleEndianNonZero(q, n - 1);
      var k :| 0 <= k < n - 1 && LittleEndian(q, n - 1)[k] != 0;
      assert LittleEndian(x, n)[k + 1] != 0;
    } else {
      assert LittleEndian(x, n)[0] != 0;
    }
  }

  /** Eight bytes hold exactly the `size_t` values. */
  lemma WordBytesRange()
    ensures Pow256(WordSize) == WordRange
  {
    assert Pow256(4) == 0x1_0000_0000;
  }

  /**
   * Where the arena's `last` pointer points: nowhere, at the final
   * checkpoint reachable from `first`, or at a checkpoint no longer
   * reachable from `first` (saving offset `saved`).
   */
  datatype Last = Null | Tail | Stale(saved: nat)

  /**
   * `arena_t`: the address of the mapping (where the header sits), the
   * offset of the next free byte, the page size and number of committed
   * pages, the saved offsets of the checkpoints reachable from `first` in
   * list order, where `last` points, and the buffer's bytes by offset.
   */
  datatype Arena = Arena(base: nat, offset: nat, pageSize: nat, numPages: nat, chain: seq<nat>, last: Last, mem: nat -> Byte)

  /** A handle to a temporary arena (`arena_temp_t *`), known by the offset it saved. */
  datatype Temp = Temp(saved: nat)

  /** `temp_arena_eq`: two handles are the same exactly when they saved the same offset. */
  predicate TempEq(self: Temp, other: Temp)
    ensures TempEq(self, other) <==> self == other
  {
    self.saved == other.saved
  }

  /** The arena is Locked, refusing persistent allocations, while `last` is not NULL. */
  predicate Locked(a: Arena) {
    !a.last.Null?
  }

  /** Saved offsets strictly increase along the chain. */
  predicate Increasing(s: seq<nat>) {
    forall i, j :: 0 <= i < j < |s| ==> s[i] < s[j]
  }

  /**
   * The arena's invariant: the offset is a `size_t`, checkpoints are
   * ordered by creation and lie below the offset, and `first` and `last`
   * are NULL together.
   */
  predicate Valid(a: Arena) {
    && a.offset < WordRange
    && Increasing(a.chain)
    && (forall i :: 0 <= i < |a.chain| ==> a.chain[i] < a.offset)
    && (a.chain == [] <==> a.last.Null?)
  }

  /**
   * `arena_new` after its mappings succeed at address `base`: one fresh
   * (zeroed) page, nothing allocated, no checkpoints.
   */
  function New(base: nat, pageSize: nat): (a: Arena)
    ensures Valid(a) && !Locked(a)
    ensures a.base == base && a.offset == 0 && a.numPages == 1 && a.pageSize == pageSize
    ensures forall i: nat :: a.mem(i) == 0
  {
    Arena(base, 0, pageSize, 1, [], Null, (_: nat) => 0)
  }

  // ---------------------------------------------------------------------
  // Mapped memory
  // ---------------------------------------------------------------------

  /**
   * Where `__map_new_page` maps, measured from the mapping's start:
   * `arena + page_size` is pointer arithmetic on `arena_t *`, so it lands
   * `sizeof(arena_t) * page_size` bytes in, and the length `page_size + 1`
   * takes two pages.
   */
  function GrowthStart(pageSize: nat): nat {
    HeaderSize * pageSize
  }

  /** The end of the pages `__map_new_page` maps. */
  function GrowthEnd(pageSize: nat): nat {
    (HeaderSize + 2) * pageSize
  }

  /** Whether buffer offset `i` lies in the pages the growth mapping covers. */
  predicate InGrowth(pageSize: nat, i: nat) {
    GrowthStart(pageSize) <= HeaderSize + i < GrowthEnd(pageSize)
  }

  /**
   * Whether `size` bytes at buffer offset `start` can be written: they lie
   * in the first page, which `arena_new` commits, or, once a page has been
   * added, in the growth mapping. The rest of the reservation has no
   * access, so writing there faults. Writing nothing never faults.
   */
  predicate Writable(a: Arena, start: nat, size: nat) {
    || size == 0
    || HeaderSize + start + size <= a.pageSize
    || (a.numPages > 1 && InGrowth(a.pageSize, start) && HeaderSize + start + size <= GrowthEnd(a.pageSize))
  }

  /** `mmap` with `MAP_FIXED` replaces the growth pages with fresh zero pages, every time. */
  function Remap(mem: nat -> Byte, pageSize: nat): (r: nat -> Byte)
    ensures forall i: nat :: InGrowth(pageSize, i) ==> r(i) == 0
    ensures forall i: nat :: !InGrowth(pageSize, i) ==> r(i) == mem(i)
  {
    (i: nat) => if InGrowth(pageSize, i) then 0 else mem(i)
  }

  /** `memset(ret, 0, size)` on the buffer's bytes. */
  function Zero(mem: nat -> Byte, start: nat, size: nat): (r: nat -> Byte)
    ensures forall i: nat :: start <= i < start + size ==> r(i) == 0
    ensures forall i: nat :: !(start <= i < start + size) ==> r(i) == mem(i)
  {
    (i: nat) => if start <= i < start + size then 0 else mem(i)
  }

  /** A `memcpy` or a field store of the bytes `bs` at buffer offset `at`. */
  function Store<T>(mem: nat -> T, at: nat, bs: seq<T>): (r: nat -> T)
    ensures forall i: nat :: at <= i < at + |bs| ==> r(i) == bs[i - at]
    ensures forall i: nat :: !(at <= i < at + |bs|) ==> r(i) == mem(i)
  {
    (i: nat) => if at <= i < at + |bs| then bs[i - at] else mem(i)
  }

  // ---------------------------------------------------------------------
  // Allocation
  // ---------------------------------------------------------------------

  /** `enum AllocResult`, the outcome of `__map_new_page`. */
  datatype PageResult = Success | OutOfVirt | AllocFailed

  /**
   * `__map_new_page`: out of address space once the arena's size reaches
   * the reservation minus a page; otherwise the mapping of a page succeeds
   * or fails as `mapped` says (the `mmap` call is not modelled).
   */
  function MapNewPage(pageSize: nat, newArenaSize: nat, mapped: bool): (r: PageResult)
    ensures r == OutOfVirt <==> newArenaSize >= Sub64(MaxAllocSpace, pageSize)
    ensures r == AllocFailed <==> newArenaSize < Sub64(MaxAllocSpace, pageSize) && !mapped
  {
    if newArenaSize >= Sub64(MaxAllocSpace, pageSize) then OutOfVirt
    else if mapped then Success
    else AllocFailed
  }

  /**
   * The outcome of an allocation: a pointer into the updated arena, NULL
   * (nothing changes), process exit, or a segmentation fault in `memset`.
   */
  datatype Alloc = Ok(arena: Arena, start: nat) | NullPtr | Exit | Fault

  /** Whether an allocation of `size` from an offset aligned to `start` asks for a new page (note the `>=`). */
  predicate NeedsPage(a: Arena, start: nat, size: nat) {
    Add64(HeaderSize + start, size) >= a.pageSize * a.numPages
  }

  /** The end of `alloc_unchecked` once the pages are settled: move the offset past the block and zero it. */
  function Carve(a: Arena, start: nat, size: nat): Alloc {
    if Writable(a, start, size) then Ok(a.(offset := Add64(start, size), mem := Zero(a.mem, start, size)), start)
    else Fault
  }

  /**
   * `alloc_unchecked`: align the offset, map more memory when the
   * header-inclusive size reaches the committed size, then move the offset
   * past the block and zero it. It ignores the checkpoint chain.
   */
  function AllocUnchecked(a: Arena, size: nat, mapped: bool): (r: Alloc)
    requires size < WordRange
    ensures r.Ok? ==> r.start % Alignment == 0 && a.offset <= r.start < a.offset + Alignment
    ensures r.Ok? && r.start + size < WordRange ==> r.arena.offset == r.start + size
    ensures r.Ok? ==> r.arena.offset < WordRange && Writable(r.arena, r.start, size)
    ensures r.Ok? ==> forall i: nat :: r.start <= i < r.start + size ==> r.arena.mem(i) == 0
    ensures r.Ok? ==> forall i: nat :: !(r.start <= i < r.start + size) ==>
      r.arena.mem(i) == if r.arena.numPages != a.numPages && InGrowth(a.pageSize, i) then 0 else a.mem(i)
    ensures r.Ok? ==> r.arena.base == a.base && r.arena.chain == a.chain && r.arena.last == a.last && r.arena.pageSize == a.pageSize
    ensures r.Ok? ==> r.arena.numPages == a.numPages || r.arena.numPages == a.numPages + 1
    ensures r.Ok? && r.arena.numPages == a.numPages + 1 ==> NeedsPage(a, r.start, size)
    ensures r.Ok? && r.arena.numPages == a.numPages ==> !NeedsPage(a, r.start, size)
    ensures var start := AlignUp(a.offset, Alignment);
      var page := MapNewPage(a.pageSize, HeaderSize + start, mapped);
      && (r.NullPtr? <==> NeedsPage(a, start, size) && page == AllocFailed)
      && (r.Exit? <==> NeedsPage(a, start, size) && page == OutOfVirt)
      && (r.Fault? <==>
            if NeedsPage(a, start, size) then page == Success && !Writable(a.(numPages := a.numPages + 1), start, size)
            else !Writable(a, start, size))
  {
    var start := AlignUp(a.offset, Alignment);
    var arenaSize := HeaderSize + start;
    if NeedsPage(a, start, size) then
      match MapNewPage(a.pageSize, arenaSize, mapped)
      case OutOfVirt => Exit
      case AllocFailed => NullPtr
      case Success => Carve(a.(numPages := a.numPages + 1, mem := Remap(a.mem, a.pageSize)), start, size)
    else
      Carve(a, start, size)
  }

  /** `alloc_checked`: NULL, with nothing changed, exactly while the arena is Locked; otherwise `alloc_unchecked`. */
  function AllocChecked(a: Arena, size: nat, mapped: bool): (r: Alloc)
    requires size < WordRange
    ensures Locked(a) ==> r.NullPtr?
    ensures !Locked(a) ==> r == AllocUnchecked(a, size, mapped)
  {
    if a.last.Null? then AllocUnchecked(a, size, mapped) else NullPtr
  }

  /** `arena_temp_alloc`: an unchecked allocation from the handle's arena, allowed while Locked. */
  function TempAlloc(a: Arena, temp: Temp, size: nat, mapped: bool): (r: Alloc)
    requires size < WordRange
    ensures r == AllocUnchecked(a, size, mapped)
    ensures Locked(a) && r.Ok? ==> AllocChecked(a, size, mapped).NullPtr? && Locked(r.arena)
  {
    AllocUnchecked(a, size, mapped)
  }

  /** An allocation that does not wrap keeps the invariant, and the offset only grows. */
  lemma AllocPreservesValid(a: Arena, size: nat, mapped: bool)
    requires Valid(a) && size < WordRange
    requires AllocUnchecked(a, size, mapped).Ok?
    requires AllocUnchecked(a, size, mapped).start + size < WordRange
    ensures Valid(AllocUnchecked(a, size, mapped).arena)
    ensures a.offset <= AllocUnchecked(a, size, mapped).arena.offset
  {}

  /** Successive allocations do not overlap: the second starts at or after the end of the first. */
  lemma SuccessiveAllocationsDisjoint(a: Arena, size1: nat, mapped1: bool, size2: nat, mapped2: bool)
    requires size1 < WordRange && size2 < WordRange
    requires AllocUnchecked(a, size1, mapped1).Ok?
    requires AllocUnchecked(a, size1, mapped1).start + size1 < WordRange
    requires AllocUnchecked(AllocUnchecked(a, size1, mapped1).arena, size2, mapped2).Ok?
    ensures AllocUnchecked(a, size1, mapped1).start + size1 <= AllocUnchecked(AllocUnchecked(a, size1, mapped1).arena, size2, mapped2).start
  {}

  /** No request of more than two pages is ever handed out: it does not fit in any mapping the arena makes. */
  lemma LargeRequestNeverSucceeds(a: Arena, size: nat, mapped: bool)
    requires size < WordRange && size > 2 * a.pageSize
    ensures !AllocUnchecked(a, size, mapped).Ok?
  {}

  /**
   * A block that would fit in two contiguous pages still faults on a fresh
   * arena: the page is mapped, but far from the first page, so `memset`
   * runs into the reservation's inaccessible pages.
   */
  lemma GrowthMapsElsewhere(base: nat, pageSize: nat, size: nat)
    requires HeaderSize < pageSize < MaxAllocSpace - HeaderSize
    requires pageSize < HeaderSize + size <= 2 * pageSize
    ensures MapNewPage(pageSize, HeaderSize, true) == Success
    ensures AllocUnchecked(New(base, pageSize), size, true).Fault?
  {
    var a := New(base, pageSize);
    assert AlignUp(0, Alignment) == 0;
    assert NeedsPage(a, 0, size);
    assert HeaderSize < Sub64(MaxAllocSpace, pageSize);
    assert GrowthStart(pageSize) > HeaderSize;
    assert !Writable(a.(numPages := 2), 0, size);
  }

  /**
   * The first allocation of 8 * 100000000 bytes from a fresh arena with
   * 4096-byte pages maps its page and then faults writing the block.
   */
  lemma BigAllocFaults(base: nat)
    ensures MapNewPage(4096, HeaderSize, true) == Success
    ensures AllocUnchecked(New(base, 4096), 800000000, true).Fault?
  {
    var a := New(base, 4096);
    assert AlignUp(0, Alignment) == 0;
    assert NeedsPage(a, 0, 800000000);
  }

  /**
   * The address-space ceiling tests the arena's size before the request,
   * never the request: a request beyond the whole reservation, on a fresh
   * arena, maps its page and faults (or gets NULL), and never exits.
   */
  lemma CeilingIgnoresSize(base: nat, pageSize: nat, size: nat, mapped: bool)
    requires 1 <= pageSize < MaxAllocSpace - HeaderSize
    requires MaxAllocSpace <= size < WordRange - HeaderSize
    ensures MapNewPage(pageSize, HeaderSize, mapped) != OutOfVirt
    ensures var r := AllocUnchecked(New(base, pageSize), size, mapped);
      !r.Exit? && (mapped ==> r.Fault?) && (!mapped ==> r.NullPtr?)
  {
    var a := New(base, pageSize);
    assert AlignUp(0, Alignment) == 0;
    assert NeedsPage(a, 0, size);
  }

  /**
   * A request just short of 2^64 bytes wraps the size test below the
   * committed size, so no page is asked for and no ceiling is checked: the
   * request goes straight to `memset`, which faults.
   */
  lemma WrappedSizeSkipsGrowth(base: nat, pageSize: nat)
    requires HeaderSize - Alignment < pageSize < WordRange
    ensures !NeedsPage(New(base, pageSize), 0, WordRange - Alignment)
    ensures AllocUnchecked(New(base, pageSize), WordRange - Alignment, true).Fault?
    ensures AllocUnchecked(New(base, pageSize), WordRange - Alignment, false).Fault?
  {
    var a := New(base, pageSize);
    assert AlignUp(0, Alignment) == 0;
    assert Add64(HeaderSize, WordRange - Alignment) == HeaderSize - Alignment;
  }

  /**
   * Only the first page is ever handed out: from an offset inside the
   * first page, a successful allocation ends inside it again, because the
   * growth mapping starts too far away to be reached by a block that
   * starts in the first page.
   */
  lemma OnlyFirstPageUsed(a: Arena, size: nat, mapped: bool)
    requires size < WordRange && a.pageSize % Alignment == 0
    requires HeaderSize + a.offset <= a.pageSize
    requires AllocUnchecked(a, size, mapped).Ok?
    ensures HeaderSize + AllocUnchecked(a, size, mapped).arena.offset <= a.pageSize
  {
    var r := AllocUnchecked(a, size, mapped);
    var p := a.pageSize;
    AlignUpStaysBelow(a.offset + HeaderSize, p);
    assert AlignUp(a.offset, Alignment) + HeaderSize == AlignUp(a.offset + HeaderSize, Alignment);
  }

  /** Aligning up stays at or below any aligned bound it starts under. */
  lemma AlignUpStaysBelow(x: nat, bound: nat)
    requires x <= bound && bound % Alignment == 0
    ensures AlignUp(x, Alignment) <= bound
  {}

  // ---------------------------------------------------------------------
  // Clearing and checkpoints
  // ---------------------------------------------------------------------

  /** `arena_clear`: offset back to 0 and no checkpoints; pages and bytes stay. */
  function Clear(a: Arena): (r: Arena)
    ensures r.offset == 0 && r.chain == [] && !Locked(r)
    ensures r.base == a.base && r.pageSize == a.pageSize && r.numPages == a.numPages && r.mem == a.mem
    ensures Valid(r)
  {
    a.(offset := 0, chain := [], last := Null)
  }

  /** The outcome of `arena_temp_new`: a new handle and the arena, NULL (nothing changes), process exit, or a fault. */
  datatype Checkpoint = Created(arena: Arena, temp: Temp) | NoCheckpoint | Exited | Faulted

  /** The buffer offset of the node of a checkpoint that saved `saved`: where `alloc_unchecked` carved it. */
  function NodeAt(saved: nat): nat {
    AlignUp(saved, Alignment)
  }

  /** A buffer offset as a pointer value, `buf + off`. */
  function Address(a: Arena, off: nat): nat {
    a.base + HeaderSize + off
  }

  /** The 24 bytes the node's `memcpy` writes: `saved_offset`, `arena`, and a NULL `next`. */
  function NodeBytes(saved: nat, base: nat): (bs: seq<Byte>)
    ensures |bs| == TempSize
  {
    LittleEndian(saved, WordSize) + LittleEndian(base, WordSize) + LittleEndian(0, WordSize)
  }

  /** Whether `last` names a node at all: a reachable tail needs a chain to end. */
  predicate LastNamesNode(a: Arena) {
    a.last.Tail? ==> a.chain != []
  }

  /** The buffer offset of `last->next`: the link field of the node `last` points at, none when `last` is NULL. */
  function LinkField(a: Arena): (r: Option<nat>)
    requires LastNamesNode(a)
    ensures r.None? <==> !Locked(a)
  {
    match a.last
    case Null => None
    case Tail => Some(NodeAt(a.chain[|a.chain| - 1]) + NextField)
    case Stale(s) => Some(NodeAt(s) + NextField)
  }

  /** Whether buffer offset `i` is one of the 8 bytes of `last->next`. */
  predicate InLink(a: Arena, i: nat)
    requires LastNamesNode(a)
  {
    LinkField(a).Some? && LinkField(a).value <= i < LinkField(a).value + WordSize
  }

  /**
   * The bytes after `arena_temp_new` has written a node carved at `start`
   * over `before`: the node's fields there, the link (the node's address)
   * in `last->next` when `last` is not NULL, and `before` everywhere else.
   */
  ghost predicate NodeWritten<T>(a: Arena, before: nat -> T, start: nat, node: seq<T>, link: seq<T>, after: nat -> T)
    requires LastNamesNode(a) && |node| == TempSize && |link| == WordSize
  {
    && (forall i: nat :: !InLink(a, i) ==>
          after(i) == if start <= i < start + TempSize then node[i - start] else before(i))
    && (forall i: nat :: InLink(a, i) ==> after(i) == link[i - LinkField(a).value])
  }

  /** Lines 375-378 of `arena_temp_new`: `memcpy` the node to `start`, then store the link in `last->next`. */
  function WriteNode<T>(a: Arena, mem: nat -> T, start: nat, node: seq<T>, link: seq<T>): (r: nat -> T)
    requires LastNamesNode(a) && |node| == TempSize && |link| == WordSize
    ensures NodeWritten(a, mem, start, node, link, r)
  {
    var copied := Store(mem, start, node);
    match LinkField(a)
    case None => copied
    case Some(field) => Store(copied, field, link)
  }

  /**
   * Lines 375-382 of `arena_temp_new`, once `b` is `a` with the node carved
   * at `start`: write the node and link it after `last` (or make it
   * `first`), then point `last` at it.
   */
  function Link(a: Arena, b: Arena, start: nat): (r: Arena)
    requires LastNamesNode(a) && b.chain == a.chain && b.last == a.last
    ensures r.offset == b.offset && r.numPages == b.numPages && r.base == b.base && r.pageSize == b.pageSize
    ensures Locked(r)
    ensures a.last.Null? ==> r.chain == [a.offset] && r.last == Tail
    ensures a.last.Tail? ==> r.chain == a.chain + [a.offset] && r.last == Tail
    ensures a.last.Stale? ==> r.chain == a.chain && r.last == Stale(a.offset)
    ensures NodeWritten(a, b.mem, start, NodeBytes(a.offset, a.base), LittleEndian(Address(a, start), WordSize), r.mem)
  {
    var mem := WriteNode(a, b.mem, start, NodeBytes(a.offset, a.base), LittleEndian(Address(a, start), WordSize));
    match b.last
    case Null => b.(chain := [a.offset], last := Tail, mem := mem)
    case Tail => b.(chain := b.chain + [a.offset], last := Tail, mem := mem)
    case Stale(_) => b.(last := Stale(a.offset), mem := mem)
  }

  /**
   * `arena_temp_new`: snapshot the offset, carve the node with an unchecked
   * allocation (so it works while Locked), copy the node's fields in, link
   * it after `last` (or make it `first` when `last` is NULL), and point
   * `last` at it. The link is written wherever `last` points, stale or not.
   */
  function TempNew(a: Arena, mapped: bool): (r: Checkpoint)
    requires LastNamesNode(a)
    ensures r.Created? ==> r.temp.saved == a.offset && Locked(r.arena)
    ensures var b := AllocUnchecked(a, TempSize, mapped);
      r.Created? ==> && b.Ok? && r.arena.offset == b.arena.offset && r.arena.numPages == b.arena.numPages
                     && r.arena.base == a.base && r.arena.pageSize == a.pageSize
    ensures r.Created? && a.last.Null? ==> r.arena.chain == [a.offset] && r.arena.last == Tail
    ensures r.Created? && a.last.Tail? ==> r.arena.chain == a.chain + [a.offset] && r.arena.last == Tail
    ensures r.Created? && a.last.Stale? ==> r.arena.chain == a.chain && r.arena.last == Stale(a.offset)
    ensures var b := AllocUnchecked(a, TempSize, mapped);
      r.Created? && b.Ok? ==>
        NodeWritten(a, b.arena.mem, b.start, NodeBytes(a.offset, a.base), LittleEndian(Address(a, b.start), WordSize), r.arena.mem)
    ensures r.NoCheckpoint? <==> AllocUnchecked(a, TempSize, mapped).NullPtr?
    ensures r.Exited? <==> AllocUnchecked(a, TempSize, mapped).Exit?
    ensures r.Faulted? <==> AllocUnchecked(a, TempSize, mapped).Fault?
  {
    match AllocUnchecked(a, TempSize, mapped)
    case Exit => Exited
    case NullPtr => NoCheckpoint
    case Fault => Faulted
    case Ok(b, start) => Created(Link(a, b, start), Temp(a.offset))
  }

  /** A checkpoint whose node does not wrap keeps the invariant. */
  lemma TempNewPreservesValid(a: Arena, mapped: bool)
    requires Valid(a) && TempNew(a, mapped).Created?
    requires AlignUp(a.offset, Alignment) + TempSize < WordRange
    ensures Valid(TempNew(a, mapped).arena)
    ensures a.offset < TempNew(a, mapped).arena.offset
  {
    var b := AllocUnchecked(a, TempSize, mapped).arena;
    assert a.offset < b.offset;
  }

  /** The walk of `arena_temp_delete`: the first index at or after `from` whose node matches `temp`, if any. */
  function FindSaved(chain: seq<nat>, temp: Temp, from: nat): (r: Option<nat>)
    requires from <= |chain|
    ensures r.Some? ==> from <= r.value < |chain| && TempEq(Temp(chain[r.value]), temp)
    ensures r.Some? ==> forall i :: from <= i < r.value ==> !TempEq(Temp(chain[i]), temp)
    ensures r.None? ==> forall i :: from <= i < |chain| ==> !TempEq(Temp(chain[i]), temp)
    decreases |chain| - from
  {
    if from == |chain| then None
    else if TempEq(Temp(chain[from]), temp) then Some(from)
    else FindSaved(chain, temp, from + 1)
  }

  /**
   * Whether buffer offset `i` is one of the 8 bytes of the `next` field
   * that the walk of `arena_temp_delete` clears: that of the node before
   * the first later match.
   */
  predicate InCutLink(a: Arena, temp: Temp, i: nat) {
    a.chain != [] && FindSaved(a.chain, temp, 1).Some? &&
    var field := NodeAt(a.chain[FindSaved(a.chain, temp, 1).value - 1]) + NextField;
    field <= i < field + WordSize
  }

  /**
   * `arena_temp_delete`: with no checkpoints, nothing happens. If the first
   * checkpoint matches, `first` and `last` become NULL. The walk from the
   * second node then clears the `next` link before the first match and cuts
   * the chain there, leaving `last` where it was. Either way the offset
   * returns to the handle's.
   */
  function TempDelete(a: Arena, temp: Temp): (r: Arena)
    ensures a.chain == [] ==> r == a
    ensures a.chain != [] ==> r.offset == temp.saved
    ensures r.base == a.base && r.pageSize == a.pageSize && r.numPages == a.numPages
    ensures forall i: nat :: r.mem(i) == if InCutLink(a, temp, i) then 0 else a.mem(i)
    ensures a.chain != [] && a.chain[0] == temp.saved ==> r.chain == [] && !Locked(r)
    ensures a.chain != [] && a.chain[0] != temp.saved ==>
      && 1 <= |r.chain| <= |a.chain| && r.chain == a.chain[..|r.chain|]
      && (|r.chain| < |a.chain| ==> a.chain[|r.chain|] == temp.saved)
      && (forall i :: 0 <= i < |r.chain| ==> a.chain[i] != temp.saved)
      && Locked(r) == Locked(a)
  {
    if a.chain == [] then a
    else
      var cut := FindSaved(a.chain, temp, 1);
      var mem := match cut
        case None => a.mem
        case Some(j) => Store(a.mem, NodeAt(a.chain[j - 1]) + NextField, seq(WordSize, _ => 0));
      if TempEq(Temp(a.chain[0]), temp) then a.(chain := [], last := Null, offset := temp.saved, mem := mem)
      else
        match cut
        case None => a.(offset := temp.saved)
        case Some(j) =>
          var last := if a.last.Tail? then Stale(a.chain[|a.chain| - 1]) else a.last;
          a.(chain := a.chain[..j], last := last, offset := temp.saved, mem := mem)
  }

  /** Deleting a checkpoint that is in the chain, or that saved an offset above all of it, keeps the invariant. */
  lemma TempDeletePreservesValid(a: Arena, temp: Temp)
    requires Valid(a) && temp.saved < WordRange
    requires temp.saved in a.chain || forall i :: 0 <= i < |a.chain| ==> a.chain[i] < temp.saved
    ensures Valid(TempDelete(a, temp))
  {
    var r := TempDelete(a, temp);
    if a.chain != [] && a.chain[0] != temp.saved {
      if |r.chain| < |a.chain| {
        assert forall i :: 0 <= i < |r.chain| ==> r.chain[i] < a.chain[|r.chain|];
      } else {
        assert temp.saved !in a.chain;
      }
    }
  }

  /**
   * The lock state machine: a persistent allocation is refused exactly
   * while Locked; a new checkpoint locks; deleting a checkpoint unlocks
   * exactly when it matches the first one; clearing unlocks.
   */
  lemma LockStateMachine(a: Arena, temp: Temp, size: nat, mapped: bool)
    requires Valid(a) && size < WordRange
    ensures AllocChecked(a, size, mapped).NullPtr? <==> Locked(a) || AllocUnchecked(a, size, mapped).NullPtr?
    ensures TempNew(a, mapped).Created? ==> Locked(TempNew(a, mapped).arena)
    ensures a.chain != [] ==> (!Locked(TempDelete(a, temp)) <==> a.chain[0] == temp.saved)
    ensures a.chain == [] ==> !Locked(TempDelete(a, temp))
    ensures !Locked(Clear(a))
  {}

  /** Saved offsets along the chain are distinct, so `temp_arena_eq` singles out at most one reachable checkpoint. */
  lemma TempEqSinglesOut(a: Arena, temp: Temp, i: nat, j: nat)
    requires Valid(a) && i < |a.chain| && j < |a.chain|
    requires TempEq(Temp(a.chain[i]), temp) && TempEq(Temp(a.chain[j]), temp)
    ensures i == j
  {}

  /**
   * Deleting a checkpoint other than the first cuts the chain but leaves
   * `last` on the removed final node, so the arena stays Locked and later
   * checkpoints are linked where `first` cannot reach them.
   */
  lemma MidDeleteLeavesStaleTail(a: Arena, j: nat, mapped: bool)
    requires Valid(a) && a.last.Tail? && 1 <= j < |a.chain|
    ensures var r := TempDelete(a, Temp(a.chain[j]));
      && r.chain == a.chain[..j] && r.last == Stale(a.chain[|a.chain| - 1]) && Locked(r)
      && (TempNew(r, mapped).Created? ==> TempNew(r, mapped).arena.chain == r.chain)
  {
    var s := a.chain[j];
    assert a.chain[0] != s;
    assert forall i :: 1 <= i < j ==> a.chain[i] != s;
  }

  /** A block handed out lies below the end of the growth mapping, the highest byte the arena maps. */
  lemma BlockBelowGrowthEnd(a: Arena, size: nat, mapped: bool)
    requires size < WordRange && 0 < size
    requires AllocUnchecked(a, size, mapped).Ok?
    ensures HeaderSize + AllocUnchecked(a, size, mapped).start + size <= GrowthEnd(a.pageSize)
  {
    var p := a.pageSize;
    assert p <= GrowthEnd(p);
  }

  /**
   * A new checkpoint on a Locked arena stores its node's address, which is
   * not zero, in `last->next`: some byte of that field becomes non-zero.
   */
  lemma LinkWritesNonZero(x: Arena, mapped: bool)
    requires LastNamesNode(x) && Locked(x)
    requires x.base + GrowthEnd(x.pageSize) < WordRange
    requires TempNew(x, mapped).Created?
    ensures exists i: nat :: InLink(x, i) && TempNew(x, mapped).arena.mem(i) != 0
  {
    var y := AllocUnchecked(x, TempSize, mapped);
    BlockBelowGrowthEnd(x, TempSize, mapped);
    WordBytesRange();
    var link := LittleEndian(Address(x, y.start), WordSize);
    LittleEndianNonZero(Address(x, y.start), WordSize);
    var k :| 0 <= k < WordSize && link[k] != 0;
    assert InLink(x, LinkField(x).value + k);
  }

  /**
   * The stale `last` is written through. Deleting the final checkpoint of
   * a chain of two or more leaves `last` on its node and hands its bytes
   * back; an allocation of at least a node's size then gets exactly those
   * bytes, zeroed, and the next checkpoint's `last->next = node` overwrites
   * 8 of them with the new node's address, which is not zero.
   */
  lemma StaleLinkClobbersAllocation(a: Arena, size: nat, mappedX: bool, mappedN: bool)
    requires Valid(a) && a.last.Tail? && |a.chain| >= 2
    requires TempSize <= size < WordRange
    requires a.base + GrowthEnd(a.pageSize) < WordRange
    requires AllocUnchecked(TempDelete(a, Temp(a.chain[|a.chain| - 1])), size, mappedX).Ok?
    requires TempNew(AllocUnchecked(TempDelete(a, Temp(a.chain[|a.chain| - 1])), size, mappedX).arena, mappedN).Created?
    ensures var x := AllocUnchecked(TempDelete(a, Temp(a.chain[|a.chain| - 1])), size, mappedX);
      var n := TempNew(x.arena, mappedN);
      && x.start == NodeAt(a.chain[|a.chain| - 1])
      && x.start + NextField + WordSize <= x.start + size
      && (forall i: nat :: x.start + NextField <= i < x.start + NextField + WordSize ==> x.arena.mem(i) == 0)
      && (exists i: nat :: x.start + NextField <= i < x.start + NextField + WordSize && n.arena.mem(i) != 0)
  {
    var j := |a.chain| - 1;
    var d := TempDelete(a, Temp(a.chain[j]));
    MidDeleteLeavesStaleTail(a, j, mappedN);
    var x := AllocUnchecked(d, size, mappedX);
    assert x.start == NodeAt(a.chain[j]);
    assert LinkField(x.arena) == Some(x.start + NextField);
    LinkWritesNonZero(x.arena, mappedN);
  }

  /**
   * Nested checkpoints A then B with an allocation after each: deleting B
   * restores the offset at which the allocation after A ended, keeps A and
   * keeps the arena Locked; deleting A then restores the original offset
   * and unlocks the arena.
   */
  lemma NestedCheckpointsRestore(a: Arena, mappedA: bool, sizeX: nat, mappedX: bool, mappedB: bool, sizeY: nat, mappedY: bool)
    requires Valid(a) && !Locked(a)
    requires a.offset + 4 * Alignment + 2 * TempSize + sizeX + sizeY < WordRange
    requires TempNew(a, mappedA).Created?
    requires TempAlloc(TempNew(a, mappedA).arena, TempNew(a, mappedA).temp, sizeX, mappedX).Ok?
    requires TempNew(TempAlloc(TempNew(a, mappedA).arena, TempNew(a, mappedA).temp, sizeX, mappedX).arena, mappedB).Created?
    requires var second := TempNew(TempAlloc(TempNew(a, mappedA).arena, TempNew(a, mappedA).temp, sizeX, mappedX).arena, mappedB);
      TempAlloc(second.arena, second.temp, sizeY, mappedY).Ok?
    ensures var first := TempNew(a, mappedA);
      var x := TempAlloc(first.arena, first.temp, sizeX, mappedX);
      var second := TempNew(x.arena, mappedB);
      var y := TempAlloc(second.arena, second.temp, sizeY, mappedY);
      var afterB := TempDelete(y.arena, second.temp);
      var afterA := TempDelete(afterB, first.temp);
      && afterB.offset == x.arena.offset && afterB.chain == [a.offset] && Locked(afterB)
      && afterA.offset == a.offset && afterA.chain == [] && !Locked(afterA)
  {
    var first := TempNew(a, mappedA);
    TempNewPreservesValid(a, mappedA);
    var x := TempAlloc(first.arena, first.temp, sizeX, mappedX);
    AllocPreservesValid(first.arena, sizeX, mappedX);
    var second := TempNew(x.arena, mappedB);
    TempNewPreservesValid(x.arena, mappedB);
    assert second.arena.chain == [a.offset, x.arena.offset];
    var y := TempAlloc(second.arena, second.temp, sizeY, mappedY);
    AllocPreservesValid(second.arena, sizeY, mappedY);
    assert y.arena.chain == [a.offset, x.arena.offset];
    assert a.offset < x.arena.offset;
  }
}

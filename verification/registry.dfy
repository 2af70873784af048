/**
 * The per-thread arena registry of src/arena.c, taken sequentially: an
 * optional global hash table from thread id to arena. The mutex and the
 * double-checked initialisation are left out.
 */
module Registry {
  import opened Wrappers
  import opened Bytes
  import HashTable

  /** A thread id, `pthread_self()` cast to `size_t`. */
  type ThreadId = Word64

  /** An arena, known by its address. */
  type ArenaRef = nat

  /** `thread_arenas`: NULL until first used, then a table from thread id to arena. */
  datatype Registry = Registry(global: Option<HashTable.HashMap<ArenaRef>>)

  /** The registry's invariant: the table, when there is one, is a valid hash table. */
  predicate Valid(r: Registry) {
    r.global.Some? ==> HashTable.Valid(r.global.value)
  }

  /** The registry before anything is registered. */
  const Empty: Registry := Registry(None)

  /** `global_exists`: whether the table has been created, i.e. anything was ever registered. */
  predicate Exists(r: Registry)
    ensures Exists(r) <==> r != Empty
  {
    r.global.Some?
  }

  /** `global_get`: the table, created with the given seed when there is none yet. */
  function Table(r: Registry, seed: bv32): (m: HashTable.HashMap<ArenaRef>)
    ensures r.global.Some? ==> m == r.global.value
    ensures r.global.None? ==> HashTable.Valid(m) && forall t :: HashTable.Values(m, t) == []
  {
    if r.global.Some? then r.global.value else HashTable.New(seed)
  }

  /** The outcome of `global_insert`: its return flag and the registry afterwards. */
  datatype Registration = Registration(ok: bool, registry: Registry)

  /** `global_insert`: add the calling thread's arena to the table, creating the table first if need be. */
  function Insert(r: Registry, seed: bv32, self: ThreadId, arena: ArenaRef): (out: Registration)
    ensures out.ok && Exists(out.registry)
  {
    var ins := HashTable.Insert(Some(Table(r, seed)), self, arena);
    Registration(ins.ok, Registry(ins.after))
  }

  /** `global_remove`: NULL without a table; otherwise what `hashmap_remove` returns, which is always NULL. */
  function Remove(r: Registry, self: ThreadId): (a: Option<ArenaRef>)
    ensures a.None?
  {
    if !Exists(r) then None else HashTable.Remove(r.global, self)
  }

  /** `global_view`: the calling thread's arena, NULL without a table. */
  function View(r: Registry, self: ThreadId): (a: Option<ArenaRef>)
    ensures !Exists(r) ==> a.None?
    ensures Valid(r) && Exists(r) ==> a == HashTable.First(HashTable.Values(r.global.value, self))
  {
    if Exists(r) then
      var got := HashTable.Get(r.global, self);
      assert Valid(r) ==> got == HashTable.First(HashTable.Values(r.global.value, self)) by {
        if Valid(r) {
          HashTable.GetIsFirstValue(r.global.value, self);
        }
      }
      got
    else None
  }

  /** `global_is_empty`: true without a table, otherwise whether the table is empty. */
  function IsEmpty(r: Registry): (b: bool)
    ensures !Exists(r) ==> b
    ensures Valid(r) && Exists(r) ==> (b <==> forall t :: HashTable.Values(r.global.value, t) == [])
  {
    if Exists(r) then
      var empty := HashTable.IsEmpty(r.global);
      assert Valid(r) ==> (empty <==> forall t :: HashTable.Values(r.global.value, t) == []) by {
        if Valid(r) {
          HashTable.IsEmptyIffNoValues(r.global.value);
        }
      }
      empty
    else true
  }

  /** `global_free`: delete the table without finalizing its values and forget it. */
  function Free(r: Registry): (out: Registry)
    ensures !Exists(out) && Valid(out)
  {
    Registry(None)
  }

  /** Registering keeps the invariant, and the thread then sees its arena unless it already had one. */
  lemma InsertThenView(r: Registry, seed: bv32, self: ThreadId, arena: ArenaRef)
    requires Valid(r)
    ensures var out := Insert(r, seed, self, arena).registry;
      && Valid(out)
      && View(out, self) == (if View(r, self).None? then Some(arena) else View(r, self))
      && !IsEmpty(out)
  {
    var m := Table(r, seed);
    HashTable.InsertUpdatesValues(m, self, arena);
    var out := Insert(r, seed, self, arena).registry;
    assert HashTable.Values(out.global.value, self) != [];
  }

  /** The outcome of `arena_new`: the new arena registered, NULL when the page cannot be mapped, or process exit. */
  datatype NewArena = Registered(registry: Registry, arena: ArenaRef) | NotMapped | Exit

  /**
   * `arena_new`'s registration step: after mapping the arena at `addr`
   * (when `mapped`), insert it for the calling thread, exiting if the
   * insertion fails. Insertion fails only on a NULL table, which
   * `global_get` never returns, so the exit cannot happen.
   */
  function NewArenaFor(r: Registry, seed: bv32, self: ThreadId, addr: ArenaRef, mapped: bool): (out: NewArena)
    ensures !out.Exit?
    ensures mapped <==> out.Registered?
    ensures out.Registered? ==> out.arena == addr && Exists(out.registry)
  {
    if !mapped then NotMapped
    else
      var reg := Insert(r, seed, self, addr);
      if !reg.ok then Exit else Registered(reg.registry, addr)
  }

  /**
   * `arena_delete`: remove the calling thread's arena, unmap it, and free
   * the table once it is empty. The removal always yields NULL, so it
   * returns at once and nothing changes.
   */
  function Delete(r: Registry, self: ThreadId): (out: Registry)
    ensures out == r
  {
    var arena := Remove(r, self);
    if arena.None? then r
    else if IsEmpty(r) then Free(r) else r
  }

  /**
   * After a thread creates its arena and deletes it, the registry still
   * hands the arena out and is not empty: the registry never empties.
   */
  lemma DeleteLeavesArenaRegistered(r: Registry, seed: bv32, self: ThreadId, addr: ArenaRef)
    requires Valid(r) && View(r, self).None?
    ensures var created := NewArenaFor(r, seed, self, addr, true);
      && created.Registered?
      && View(Delete(created.registry, self), self) == Some(addr)
      && !IsEmpty(Delete(created.registry, self))
  {
    InsertThenView(r, seed, self, addr);
  }
}

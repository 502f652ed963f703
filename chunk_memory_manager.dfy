/**
 * `cmm::ChunkMemoryManager`: a buffer of `nmemb` chunks of `size` bytes and a
 * stack of the free chunks' addresses, updated in place by `alloc` and `free`,
 * and the owning handles that `make_unique` and `make_shared` return.
 *
 * Each method is tied to the step of the same name in `PoolSpec`; the ghost
 * set `outstanding` holds the addresses currently in callers' hands, so that
 * `free`'s unchecked trust in its caller becomes a precondition.
 */
module ChunkPool {
  import opened Wrappers
  import opened PoolSpec

  class ChunkMemoryManager {
    var totalSize: nat
    var chunkSize: nat
    var freePosition: seq<nat>

    /** The `nmemb` the pool was built with; the source keeps only `total_size`. */
    ghost const capacity: nat
    /** Addresses returned by `alloc` and not yet given back to `free`. */
    ghost var outstanding: set<nat>

    function State(): PoolState
      reads this
    {
      PoolState(totalSize, chunkSize, freePosition)
    }

    ghost predicate Valid()
      reads this
    {
      Inv(State(), outstanding, capacity)
    }

    /** Allocates the buffer and pushes the address of every chunk, lowest first. */
    constructor (nmemb: nat, size: nat)
      requires size * nmemb < SIZE_T_MODULUS
      ensures State() == Construct(nmemb, size)
      ensures totalSize == size * nmemb && chunkSize == size
      ensures |freePosition| == nmemb
      ensures forall i :: 0 <= i < nmemb ==> freePosition[i] == i * size
      ensures capacity == nmemb && outstanding == {}
      ensures size > 0 ==> Valid()
    {
      totalSize := size * nmemb;
      chunkSize := size;
      capacity := nmemb;
      outstanding := {};
      freePosition := [];
      new;
      for i := 0 to nmemb
        invariant totalSize == size * nmemb && chunkSize == size && outstanding == {}
        invariant freePosition == ChunkOffsets(i, size)
      {
        freePosition := freePosition + [i * size];
      }
      forall i | 0 <= i < nmemb
        ensures freePosition[i] == i * size
      {
        ChunkOffsetsAt(nmemb, size, i);
      }
      if size > 0 {
        ConstructEstablishesInv(nmemb, size);
      }
    }

    /**
     * Returns null for a request larger than a chunk or when no chunk is
     * free; otherwise pops and returns the most recently pushed free chunk.
     */
    method Alloc(size: nat) returns (position: Option<nat>)
      modifies this
      ensures AllocOutcome(State(), position) == AllocStep(old(State()), size)
      ensures totalSize == old(totalSize) && chunkSize == old(chunkSize)
      ensures size > chunkSize ==> position == None && freePosition == old(freePosition)
      ensures size <= chunkSize && old(freePosition) == [] ==> position == None && freePosition == []
      ensures size <= chunkSize && old(freePosition) != [] ==>
        && position == Some(old(freePosition)[|old(freePosition)| - 1])
        && freePosition == old(freePosition)[..|old(freePosition)| - 1]
      ensures outstanding == Issued(old(outstanding), position)
      ensures old(Valid()) ==> Valid()
      ensures old(Valid()) && position.Some? ==>
        IsChunk(State(), position.value) && position.value !in old(outstanding)
    {
      if Valid() {
        AllocPreservesInv(State(), outstanding, capacity, size);
      }
      if size > chunkSize {
        return None;
      }
      if freePosition != [] {
        var top := |freePosition| - 1;
        position := Some(freePosition[top]);
        freePosition := freePosition[..top];
        outstanding := outstanding + {position.value};
        return;
      }
      return None;
    }

    /**
     * Pushes `position` back onto the free stack; the source checks nothing,
     * so the caller must hand back an outstanding address. `outstanding` is a
     * set, so when chunks alias (`size == 0`) an address issued twice can be
     * freed only once.
     */
    method Free(position: nat)
      requires position in outstanding
      modifies this
      ensures State() == FreeStep(old(State()), position)
      ensures totalSize == old(totalSize) && chunkSize == old(chunkSize)
      ensures freePosition == old(freePosition) + [position]
      ensures outstanding == old(outstanding) - {position}
      ensures old(Valid()) ==> Valid()
    {
      if Valid() {
        FreePreservesInv(State(), outstanding, capacity, position);
      }
      freePosition := freePosition + [position];
      outstanding := outstanding - {position};
    }

    /**
     * `make_unique<T>`: allocates `sizeof(T)` bytes; on failure the handle
     * is empty and the pool unchanged, otherwise the handle owns the chunk.
     */
    method MakeUnique(typeSize: nat) returns (h: OwnedSlot)
      modifies this
      ensures fresh(h) && h.pool == this
      ensures AllocOutcome(State(), h.slot) == AllocStep(old(State()), typeSize)
      ensures h.slot.None? ==> State() == old(State()) && outstanding == old(outstanding)
      ensures outstanding == Issued(old(outstanding), h.slot)
      ensures h.Valid()
      ensures old(Valid()) ==> Valid()
    {
      var rawMem := Alloc(typeSize);
      if rawMem == None {
        // The source returns a null smart pointer, whose deleter refers to no
        // pool; an empty handle's `pool` is never used, since releasing it
        // does nothing.
        h := new OwnedSlot(this, None);
        return;
      }
      h := new OwnedSlot(this, rawMem);
    }

    /**
     * `make_shared<T>`: the same allocate-or-null step as `MakeUnique`; the
     * handle stands for the shared pointer's last owner.
     */
    method MakeShared(typeSize: nat) returns (h: OwnedSlot)
      modifies this
      ensures fresh(h) && h.pool == this
      ensures AllocOutcome(State(), h.slot) == AllocStep(old(State()), typeSize)
      ensures h.slot.None? ==> State() == old(State()) && outstanding == old(outstanding)
      ensures outstanding == Issued(old(outstanding), h.slot)
      ensures h.Valid()
      ensures old(Valid()) ==> Valid()
    {
      var rawMem := Alloc(typeSize);
      if rawMem == None {
        // The source returns a null smart pointer, whose deleter refers to no
        // pool; an empty handle's `pool` is never used, since releasing it
        // does nothing.
        h := new OwnedSlot(this, None);
        return;
      }
      h := new OwnedSlot(this, rawMem);
    }
  }

  /**
   * An owning handle: the chunk it holds (none for a null handle) and, as in
   * `GenericPointerDeleter`, the pool that must take the chunk back.
   */
  class OwnedSlot {
    const pool: ChunkMemoryManager
    var slot: Option<nat>

    /** A full handle holds a chunk that its pool has handed out. */
    ghost predicate Valid()
      reads this, pool
    {
      slot.Some? ==> slot.value in pool.outstanding
    }

    constructor (pool: ChunkMemoryManager, slot: Option<nat>)
      ensures this.pool == pool && this.slot == slot
    {
      this.pool := pool;
      this.slot := slot;
    }

    /**
     * The handle's destruction: a full handle gives its chunk back to the
     * pool with `free`, exactly once, and becomes empty; an empty handle
     * does nothing, so releasing twice frees once.
     */
    method Release()
      requires Valid()
      modifies this, pool
      ensures slot == None
      ensures pool.State() == ReleaseStep(old(pool.State()), old(slot))
      ensures old(slot).None? ==> pool.State() == old(pool.State()) && pool.outstanding == old(pool.outstanding)
      ensures old(slot).Some? ==>
        && pool.freePosition == old(pool.freePosition) + [old(slot).value]
        && pool.outstanding == old(pool.outstanding) - {old(slot).value}
      ensures old(pool.Valid()) ==> pool.Valid()
    {
      if slot.Some? {
        pool.Free(slot.value);
        slot := None;
      }
    }
  }
}

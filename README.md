# ChunkMemoryManager, modelled in Dafny

`cmm::ChunkMemoryManager` is a fixed-chunk memory pool. The constructor
allocates one buffer of `nmemb * size` bytes and pushes the address of every
`size`-byte chunk onto a vector, `free_position`. `alloc(size)` refuses a
request larger than a chunk, otherwise pops the most recently pushed free
address (LIFO), and returns null once the vector is empty. `free(p)` pushes
`p` back without any check. The helpers `make_unique<T>` and `make_shared<T>`
call `alloc(sizeof(T))`, return a null handle on failure, and otherwise wrap
the chunk in a smart pointer whose deleter, `GenericPointerDeleter`, calls
`free` on that same chunk.

The model has three modules.

- `PoolSpec` (pool_spec.dfy) is the pool as a value. `PoolState` holds
  `total_size`, `chunk_size` and `free_position`. Addresses are byte offsets
  into the buffer and null is `None`. `Construct`, `AllocStep`, `FreeStep` and
  `ReleaseStep` are the constructor, `alloc`, `free` and the deleter as
  functions; `AllocRun` is a run of allocations with no `free` between them.
  `Inv` is the pool invariant for a pool of `capacity` chunks whose callers
  hold the set `outstanding`. The lemmas state what the pool guarantees.
- `ChunkPool` (chunk_memory_manager.dfy) is the class, with the source's
  fields updated in place. Each method's postcondition ties the new state to
  the matching `PoolSpec` step and spells out the cases. A ghost set
  `outstanding` records the addresses in callers' hands. `free`'s unchecked
  trust in its caller becomes the precondition `position in outstanding`.
  `OwnedSlot` is the owning handle: an optional chunk plus the pool that must
  take it back.
- `Scenarios` (scenarios.dfy) holds client methods that use only the class
  contracts: a pool of four 64-byte chunks, and a one-chunk pool used through
  handles.

`size_t` is taken to be 64 bits wide. The model keeps the product
`size * nmemb` and the chunk offsets `i * size` exact, and the constructor
requires that `size * nmemb` fit in `size_t`, so that none of them wraps;
`SizeTProduct` and `SizeTChunkOffsets` give the wrapped values the source
computes otherwise. See "## Findings".

## Model

| member | source | states |
|---|---|---|
| `PoolSpec.Construct` | ChunkMemoryManager.hpp:89-101 | the constructed pool has `chunk_size == size`, `total_size == nmemb * size` and exactly `nmemb` free entries |
| `PoolSpec.AllocStep` | ChunkMemoryManager.hpp:107-120 | `alloc` succeeds iff the request fits a chunk and the stack is non-empty; on success the returned address pushed back onto the new stack gives the old stack; on failure the pool is unchanged; the sizes never change |
| `PoolSpec.FreeStep` | ChunkMemoryManager.hpp:122-124 | `free` keeps the old stack as a prefix and adds exactly the freed address after it; the sizes do not change |
| `PoolSpec.ReleaseStep` | ChunkMemoryManager.hpp:27-30 | the deleter leaves the pool unchanged for an empty handle and appends the handle's chunk to the stack for a full one |
| `PoolSpec.AllocRun` | ChunkMemoryManager.hpp:112-116 | `k` successive allocations give `k` results, never grow the stack and never change the sizes |
| `PoolSpec.ChunkOffsets` | ChunkMemoryManager.hpp:96-100 | the constructor's loop pushes exactly `nmemb` addresses |
| `PoolSpec.ChunkOffsetsAt` | ChunkMemoryManager.hpp:96-100 | the `i`-th pushed address is the offset `i * size` |
| `PoolSpec.ConstructLayout` | ChunkMemoryManager.hpp:89-101 | a fresh pool has `total_size == size * nmemb`, `chunk_size == size` and `nmemb` free entries; for `size > 0` these are strictly increasing, `size`-aligned and below `total_size` |
| `PoolSpec.ConstructEstablishesInv` | ChunkMemoryManager.hpp:89-101 | a fresh pool with nothing handed out satisfies the pool invariant (no duplicates, aligned, in range, `nmemb` chunks accounted for) |
| `PoolSpec.AllocPreservesInv` | ChunkMemoryManager.hpp:107-120 | under the invariant, a successful `alloc` returns an aligned in-range chunk that no caller holds (no aliasing), and the invariant holds once that chunk counts as outstanding |
| `PoolSpec.FreePreservesInv` | ChunkMemoryManager.hpp:122-124 | under the invariant, freeing an outstanding chunk keeps the invariant, with the chunk moved from the outstanding set back to the free stack |
| `PoolSpec.OutstandingBounded` | ChunkMemoryManager.hpp:107-124 | under the invariant at most `capacity` chunks are outstanding, and exactly `capacity` are outstanding iff the free stack is empty |
| `PoolSpec.InvAccountsForEveryChunk` | ChunkMemoryManager.hpp:89-124 | under the invariant the free stack and the outstanding set together are exactly the `capacity` chunk starts of the buffer: no chunk is lost and nothing foreign is held |
| `PoolSpec.FreeThenAllocReturnsFreed` | ChunkMemoryManager.hpp:107-124 | LIFO reuse: an in-size `alloc` right after `free(p)` returns `p` and leaves the pool as it was before the `free` |
| `PoolSpec.ReleaseUndoesAlloc` | ChunkMemoryManager.hpp:27-46 | releasing the handle built from an `alloc` gives back the pool state from before the `alloc`; a failed `alloc` leaves an empty handle whose release changes nothing |
| `PoolSpec.HandleRoundTrip` | ChunkMemoryManager.hpp:27-62 | under the invariant, building a handle and releasing it keeps the invariant and restores both the pool and the outstanding set |
| `PoolSpec.AllocRunPops` | ChunkMemoryManager.hpp:112-116 | `k` in-size allocations from a stack of at least `k` entries return the top `k` entries, top first, and remove exactly those |
| `PoolSpec.CapacityBound` | ChunkMemoryManager.hpp:89-119 | from a fresh pool of `nmemb` chunks, `nmemb` in-size allocations all succeed with pairwise-distinct aligned in-range chunks, and the next one returns null and changes nothing |
| `PoolSpec.ChunkStartsMembers` | ChunkMemoryManager.hpp:96-100 | an offset is one of the first `n` chunk starts iff it is `size`-aligned and below `n * size` |
| `PoolSpec.SizeTProduct` | ChunkMemoryManager.hpp:90-91 | the buffer size as the source computes it in `size_t`: below 2^64, and equal to `size * nmemb` when that fits |
| `PoolSpec.SizeTChunkOffsets` | ChunkMemoryManager.hpp:96-100 | the offsets the loop pushes with `i * size` computed in `size_t`: `nmemb` of them, each below 2^64, equal to `i * size` whenever that fits |
| `PoolSpec.WrappedTotalSizeExcludesLastChunk` | ChunkMemoryManager.hpp:89-100 | when `size * nmemb` overflows `size_t` but `(nmemb - 1) * size` does not, the last address the constructor pushes is `(nmemb - 1) * size` and lies at or beyond the end of the buffer it allocated |
| `PoolSpec.WrappedTotalSizeExample` | ChunkMemoryManager.hpp:89-100 | two chunks of 2^63 bytes give a zero-byte buffer while the pushed offsets are 0 and 2^63 |
| `PoolSpec.WrappedOffsetsCoincide` | ChunkMemoryManager.hpp:89-100 | three chunks of 2^63 bytes give a 2^63-byte buffer while the pushed offsets are 0, 2^63 and 0, so the free stack holds a duplicate |
| `PoolSpec.WrappedOffsetsEscapeBuffer` | ChunkMemoryManager.hpp:89-100 | three chunks of 3 * 2^62 bytes give a 2^62-byte buffer while the pushed offsets are 0, 3 * 2^62 and 2^63: distinct, but the last two lie beyond the buffer |
| `ChunkPool.ChunkMemoryManager.constructor` | ChunkMemoryManager.hpp:89-101 | the new pool's state is `Construct(nmemb, size)`: the `i`-th free entry is `i * size`, nothing is outstanding, and for `size > 0` the invariant holds |
| `ChunkPool.ChunkMemoryManager.Alloc` | ChunkMemoryManager.hpp:107-120 | oversize gives null with the free stack unchanged; an empty stack gives null and changes nothing; otherwise the top entry is returned and removed and nothing else changes; the invariant is kept |
| `ChunkPool.ChunkMemoryManager.Free` | ChunkMemoryManager.hpp:122-124 | the address is appended to the free stack, the sizes do not change, and the invariant is kept when the address was outstanding |
| `ChunkPool.ChunkMemoryManager.MakeUnique` | ChunkMemoryManager.hpp:36-47 | returns a fresh handle holding exactly what `alloc(sizeof(T))` returned, bound to this pool when it holds a chunk; when that is null the handle is empty and the pool unchanged |
| `ChunkPool.ChunkMemoryManager.MakeShared` | ChunkMemoryManager.hpp:52-63 | the same allocate-or-null step as `MakeUnique`, handing back a fresh handle that is empty when `alloc` returns null |
| `ChunkPool.OwnedSlot.constructor` | ChunkMemoryManager.hpp:22-25 | the handle records its chunk and the pool its deleter frees into |
| `ChunkPool.OwnedSlot.Release` | ChunkMemoryManager.hpp:27-30 | a full handle calls `free` on its chunk once and becomes empty, so a second release is a no-op; an empty handle changes nothing |
| `Scenarios.TakeAllFour` | ChunkMemoryManager.hpp:112-116 | four allocations from a fresh 4 x 64 pool return 192, 128, 64, 0 and empty the free stack |
| `Scenarios.ExhaustedThenReuse` | ChunkMemoryManager.hpp:107-124 | on the emptied 4 x 64 pool `alloc` returns null and changes nothing, and after `free(64)` the next `alloc` returns 64 |
| `Scenarios.FourChunkScenario` | ChunkMemoryManager.hpp:89-124 | on a 4 x 64 pool four allocations are distinct, aligned and in range, a fifth is null, and after one is freed the next allocation returns it |
| `Scenarios.HandleCleanupScenario` | ChunkMemoryManager.hpp:27-63 | on a 1 x 16 pool a second handle and an oversized request are empty, and once the first handle is released the next handle gets the same chunk |

`Issued`, `Inv`, `IsChunk`, `NoDuplicates`, `ChunkStarts` and `Elements` are
definitions the rows above speak about; the
lemmas `MulMonotone`, `MulMonotoneWeak`, `MulSucc`, `MulMod`, `AlignedInChunk`, `ChunkStartsCount`,
`DistinctElementsCount` and `SubsetOfSameSizeIsEqual` are arithmetic and set
helpers.

## Left out

- Placement-new construction of `T`, the call to `~T()` in the deleter and the forwarding of constructor arguments: generic C++ object lifetime. A handle's release is modelled only as the call to `free` on its chunk; `sizeof(T)` is the `typeSize` parameter.
- `std::shared_ptr` reference counting: library code. `MakeShared` returns the same kind of handle as `MakeUnique`, and its `Release` stands for the drop of the last owner.
- Moving a `std::unique_ptr`: library code, not this file. An `OwnedSlot` whose release has run is empty, which is what makes a second release a no-op.
- Raw pointers, `new uint8_t[]` and the destructor's `delete data` (which should be `delete[]`): addresses are offsets into a buffer that is not itself modelled, so the pool's destruction is not modelled either.
- `free_position.reserve(nmemb)`: it has no observable effect.
- Concurrency: the source does no synchronisation and the model is sequential.
- `ChunkPool.ChunkMemoryManager.constructor`: requires that `size * nmemb` fit in a 64-bit `size_t`, which the source does not check (see "## Findings").
- `ChunkPool.ChunkMemoryManager.constructor`: establishes the invariant only for `size > 0`. With `size == 0` every pushed address is offset 0, so the chunks alias; the model still states the layout for that case but proves nothing about aliasing.
- `ChunkPool.ChunkMemoryManager.MakeUnique`: does not model a constructor of `T` that throws at line 44. There `alloc` has already popped the chunk and nothing pushes it back, so the chunk is lost to the pool for good; the model always returns a handle that owns the chunk.
- `ChunkPool.ChunkMemoryManager.MakeShared`: does not model a constructor of `T` that throws at line 60, which loses the popped chunk in the same way; nor a `std::bad_alloc` from allocating the shared pointer's control block at line 62.
- `ChunkPool.ChunkMemoryManager.constructor`: does not model `std::bad_alloc` from `new uint8_t[size * nmemb]` at line 90; the model's constructor always succeeds.
- `ChunkPool.ChunkMemoryManager.Free`: requires the address to be outstanding. The source accepts any pointer, and a double free or a foreign pointer corrupts the free stack; that misuse is not modelled. Because `outstanding` is a set, on a pool whose chunks alias (`size == 0`, where every `alloc` returns offset 0) an address issued twice can be freed only once in the model.
- `ChunkPool.OwnedSlot.Release`: requires that a full handle's chunk be outstanding in its pool, which is the same obligation as `Free`'s.

## Findings

| source | as written | input that shows it | evidently intended | confidence | as-written member | corrected member |
|---|---|---|---|---|---|---|
| ChunkMemoryManager.hpp:90-91 | `size * nmemb` is computed in `size_t` and wraps; the buffer and `total_size` use the wrapped value while the loop still pushes `nmemb` chunk addresses; when `(nmemb - 1) * size` still fits, the last of them lies outside the buffer | `nmemb = 2`, `size = 2^63`: the buffer is 0 bytes and the pushed offsets are 0 and 2^63 | the buffer holds all `nmemb` chunks, `total_size == size * nmemb` | likely; not executed | `PoolSpec.WrappedTotalSizeExcludesLastChunk` | `ChunkPool.ChunkMemoryManager.constructor` |
| ChunkMemoryManager.hpp:96-100 | the loop's `i * size` is computed in `size_t` too; once it wraps, pushed offsets can coincide (as for the input shown) or fall outside the buffer (`WrappedOffsetsEscapeBuffer`: `nmemb = 3`, `size = 3 * 2^62` gives distinct offsets 0, 3 * 2^62 and 2^63 beside a 2^62-byte buffer) | `nmemb = 3`, `size = 2^63`: the buffer is 2^63 bytes and the pushed offsets are 0, 2^63 and 0 | `nmemb` distinct chunk addresses, all inside the buffer | likely; not executed | `PoolSpec.WrappedOffsetsCoincide` | `ChunkPool.ChunkMemoryManager.constructor` |

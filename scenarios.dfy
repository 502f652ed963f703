/**
 * Clients of the pool that rely only on the contracts of `ChunkPool`: the
 * usage the pool is built for, written out as methods whose postconditions
 * say what each call returns.
 */
module Scenarios {
  import opened Wrappers
  import opened PoolSpec
  import opened ChunkPool

  /** Four in-size allocations from a fresh pool of four 64-byte chunks take the chunks from the top of the stack down. */
  method TakeAllFour(pool: ChunkMemoryManager) returns (issued: seq<nat>)
    requires pool.State() == Construct(4, 64) && pool.outstanding == {}
    modifies pool
    ensures issued == [192, 128, 64, 0]
    ensures pool.State() == PoolState(256, 64, [])
    ensures pool.outstanding == {192, 128, 64, 0}
  {
    assert pool.freePosition == [0, 64, 128, 192];
    var a := pool.Alloc(64);
    assert a == Some(192) && pool.freePosition == [0, 64, 128];
    var b := pool.Alloc(16);
    assert b == Some(128) && pool.freePosition == [0, 64];
    var c := pool.Alloc(1);
    assert c == Some(64) && pool.freePosition == [0];
    var d := pool.Alloc(64);
    issued := [a.value, b.value, c.value, d.value];
  }

  /** On the emptied 4 x 64 pool an allocation returns null; after chunk 64 is freed it is returned again. */
  method ExhaustedThenReuse(pool: ChunkMemoryManager) returns (fifth: Option<nat>, reissued: Option<nat>)
    requires pool.State() == PoolState(256, 64, []) && pool.outstanding == {192, 128, 64, 0}
    modifies pool
    ensures fifth == None && reissued == Some(64)
    ensures pool.State() == PoolState(256, 64, []) && pool.outstanding == {192, 128, 64, 0}
  {
    fifth := pool.Alloc(8);
    pool.Free(64);
    reissued := pool.Alloc(64);
  }

  /**
   * A pool of four 64-byte chunks: four in-size allocations return distinct
   * aligned chunks, a fifth returns null, and after one chunk is freed the
   * next allocation returns that same chunk.
   */
  method FourChunkScenario() returns (issued: seq<nat>, fifth: Option<nat>, reissued: Option<nat>)
    ensures |issued| == 4
    ensures forall j, k :: 0 <= j < k < 4 ==> issued[j] != issued[k]
    ensures forall j :: 0 <= j < 4 ==> issued[j] % 64 == 0 && issued[j] < 256
    ensures fifth == None
    ensures reissued == Some(issued[2])
  {
    var pool := new ChunkMemoryManager(4, 64);
    issued := TakeAllFour(pool);
    fifth, reissued := ExhaustedThenReuse(pool);
  }

  /**
   * A pool of one 16-byte chunk used through handles: the first handle gets
   * the chunk, a second and an oversized request get empty handles, and once
   * the first handle is released (twice, the second time doing nothing) the
   * chunk is handed out again.
   */
  method HandleCleanupScenario() returns (first: Option<nat>, whileHeld: Option<nat>, oversized: Option<nat>, afterRelease: Option<nat>)
    ensures first.Some? && first.value < 16
    ensures whileHeld == None && oversized == None
    ensures afterRelease == first
  {
    var pool := new ChunkMemoryManager(1, 16);
    var h := pool.MakeUnique(8);
    first := h.slot;
    var shared := pool.MakeShared(4);
    whileHeld := shared.slot;
    shared.Release();
    var big := pool.MakeUnique(17);
    oversized := big.slot;
    h.Release();
    h.Release();
    var again := pool.MakeShared(16);
    afterRelease := again.slot;
  }
}

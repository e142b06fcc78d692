/**
 The HW_05 block allocator: a bitmap beside an unordered table of live
 allocations.  `AllocStep` and `FreeStep` say what one call does to the state;
 the class does it in place, one call under the spinlock being one step.
 */
module Allocator {
  import opened Bitmap
  import opened Text
  import Fragmentation

  const BLOCK_SIZE: nat := 4096
  const TOTAL_BLOCKS: nat := 2560
  const BITMAP_BYTES: nat := (TOTAL_BLOCKS + 7) / 8
  const MAX_ALLOCATIONS: nat := 1024

  const ALLOC_OK := 0
  const ALLOC_NOMEM := -1
  const ALLOC_INVALID := -2
  const ALLOC_NOT_FOUND := -3

  /** A pointer value; the null pointer is 0. */
  type Address = nat

  datatype AllocationInfo = AllocationInfo(startBlock: nat, numBlocks: nat, ptr: Address)

  datatype State = State(pool: Address, used: seq<bool>, table: seq<AllocationInfo>)

  datatype StatsInfo = StatsInfo(
    totalBlocks: nat, freeBlocks: nat, allocatedBlocks: nat,
    totalMemory: nat, freeMemory: nat, allocatedMemory: nat,
    fragmentationPercent: nat)

  // ---- one call

  /** The round-up to whole blocks, in 64-bit arithmetic. */
  function BlocksFor(bytes: Word): nat {
    (bytes + BLOCK_SIZE - 1) % WORD64 / BLOCK_SIZE
  }

  ghost function AllocStep(s: State, bytes: Word): (State, Address) {
    var n := BlocksFor(bytes);
    var start := FirstFit(s.used, n);
    if bytes == 0 || start < 0 || |s.table| >= MAX_ALLOCATIONS then
      (s, 0)
    else
      FirstFitExact(s.used, n);
      var ptr := s.pool + start * BLOCK_SIZE;
      (State(s.pool, Fill(s.used, start, n, true), s.table + [AllocationInfo(start, n, ptr)]), ptr)
  }

  /** The least index of a record for ptr, |table| when there is none. */
  function IndexOf(table: seq<AllocationInfo>, ptr: Address): (i: nat)
    ensures i <= |table|
    ensures i < |table| ==> table[i].ptr == ptr
    ensures forall j: nat | j < i :: table[j].ptr != ptr
  {
    if table == [] then 0
    else
      var i := IndexOf(table[..|table| - 1], ptr);
      if i < |table| - 1 || table[i].ptr == ptr then i else |table|
  }

  /** The table after record i has been overwritten by the last one. */
  function RemoveAt(table: seq<AllocationInfo>, i: nat): (r: seq<AllocationInfo>)
    requires i < |table|
    ensures |r| == |table| - 1
    ensures forall j: nat | j < |r| :: r[j] == if j == i then table[|r|] else table[j]
  {
    var last := |table| - 1;
    if i < last then table[..last][i := table[last]] else table[..last]
  }

  ghost function FreeStep(s: State, ptr: Address): (State, int)
    requires InRange(s)
  {
    if ptr == 0 then (s, ALLOC_INVALID)
    else
      var i := IndexOf(s.table, ptr);
      if i == |s.table| then (s, ALLOC_NOT_FOUND)
      else
        (State(s.pool, Fill(s.used, s.table[i].startBlock, s.table[i].numBlocks, false), RemoveAt(s.table, i)),
         ALLOC_OK)
  }

  // ---- agreement of bitmap, table and pool

  predicate Covers(a: AllocationInfo, block: nat) {
    a.startBlock <= block < a.startBlock + a.numBlocks
  }

  predicate Apart(a: AllocationInfo, b: AllocationInfo) {
    a.startBlock + a.numBlocks <= b.startBlock || b.startBlock + b.numBlocks <= a.startBlock
  }

  predicate RecordOk(s: State, a: AllocationInfo) {
    && 0 < a.numBlocks
    && a.startBlock + a.numBlocks <= |s.used|
    && a.ptr == s.pool + a.startBlock * BLOCK_SIZE
  }

  predicate InRange(s: State) {
    forall i: nat | i < |s.table| :: RecordOk(s, s.table[i])
  }

  ghost predicate Owned(table: seq<AllocationInfo>, block: nat) {
    exists i: nat :: i < |table| && Covers(table[i], block)
  }

  /** The pool does not wrap, the table is within its cap, live regions are
      non-empty, in range and pairwise disjoint, every pointer is that of its
      region, and a bit is set exactly when a live region covers its block. */
  ghost predicate Consistent(s: State) {
    && 0 < s.pool && s.pool + |s.used| * BLOCK_SIZE <= WORD64
    && |s.table| <= MAX_ALLOCATIONS
    && InRange(s)
    && (forall i: nat, j: nat | i < j < |s.table| :: Apart(s.table[i], s.table[j]))
    && (forall b: nat | b < |s.used| :: s.used[b] <==> Owned(s.table, b))
  }

  function EmptyState(pool: Address, total: nat): State {
    State(pool, seq(total, _ => false), [])
  }

  function StatsOf(s: State): StatsInfo {
    var free := Fragmentation.FreeBlocks(s.used);
    var inUse := CountUsed(s.used);
    StatsInfo(|s.used|, free, inUse,
              |s.used| * BLOCK_SIZE, free * BLOCK_SIZE, inUse * BLOCK_SIZE,
              Percent(FreeRuns(s.used)))
  }

  lemma LiveApartFromFree(s: State, i: nat, a: AllocationInfo)
    requires Consistent(s) && i < |s.table|
    requires a.numBlocks > 0 && FreeRun(s.used, a.startBlock, a.numBlocks)
    ensures Apart(s.table[i], a)
  {
    assert Covers(s.table[i], s.table[i].startBlock);
    assert Owned(s.table, s.table[i].startBlock);
    assert !Owned(s.table, a.startBlock);
    assert !Covers(s.table[i], a.startBlock);
  }

  lemma AllocKeepsConsistent(s: State, bytes: Word)
    requires Consistent(s)
    ensures Consistent(AllocStep(s, bytes).0)
  {
    var (t, ptr) := AllocStep(s, bytes);
    if t != s {
      FirstFitExact(s.used, BlocksFor(bytes));
      var last := |s.table|;
      var a := t.table[last];
      forall i: nat | i < last
        ensures Apart(t.table[i], a)
      {
        LiveApartFromFree(s, i, a);
      }
      forall b: nat | b < |t.used|
        ensures t.used[b] <==> Owned(t.table, b)
      {
        if Owned(s.table, b) {
          var i: nat :| i < |s.table| && Covers(s.table[i], b);
          assert Covers(t.table[i], b);
        }
        assert Covers(t.table[last], b) <==> a.startBlock <= b < a.startBlock + a.numBlocks;
      }
    }
  }

  ghost predicate OwnedByOther(table: seq<AllocationInfo>, i: nat, block: nat) {
    exists j: nat :: j < |table| && j != i && Covers(table[j], block)
  }

  /** Swapping the last record into slot i loses record i and nothing else. */
  lemma RemoveAtOwners(table: seq<AllocationInfo>, i: nat, block: nat)
    requires i < |table|
    ensures Owned(RemoveAt(table, i), block) <==> OwnedByOther(table, i, block)
  {
    var r := RemoveAt(table, i);
    if Owned(r, block) {
      var j: nat :| j < |r| && Covers(r[j], block);
      assert Covers(table[if j == i then |r| else j], block);
    }
    if OwnedByOther(table, i, block) {
      var j: nat :| j < |table| && j != i && Covers(table[j], block);
      assert Covers(r[if j == |r| then i else j], block);
    }
  }

  lemma FreeKeepsConsistent(s: State, ptr: Address)
    requires Consistent(s)
    ensures Consistent(FreeStep(s, ptr).0)
  {
    var (t, code) := FreeStep(s, ptr);
    if code == ALLOC_OK {
      var i := IndexOf(s.table, ptr);
      forall b: nat | b < |t.used|
        ensures t.used[b] <==> Owned(t.table, b)
      {
        RemoveAtOwners(s.table, i, b);
        assert s.used[b] <==> Covers(s.table[i], b) || OwnedByOther(s.table, i, b);
        assert Covers(s.table[i], b) ==> !OwnedByOther(s.table, i, b);
      }
    }
  }

  // ---- the allocator itself

  class MemoryAllocator {
    var bitmap: array?<bv8>
    var memoryPool: Address
    var totalBlocks: nat
    var blockSize: nat
    const allocations: array<AllocationInfo>
    var numAllocations: nat

    /** Static storage: every field zero. */
    constructor ()
      ensures fresh(allocations) && allocations.Length == MAX_ALLOCATIONS
      ensures bitmap == null && memoryPool == 0 && numAllocations == 0
    {
      bitmap, memoryPool, totalBlocks, blockSize, numAllocations := null, 0, 0, 0, 0;
      allocations := new AllocationInfo[MAX_ALLOCATIONS](_ => AllocationInfo(0, 0, 0));
    }

    ghost predicate Ready()
      reads this, bitmap, allocations
    {
      && bitmap != null
      && bitmap.Length == (totalBlocks + 7) / 8
      && blockSize == BLOCK_SIZE
      && allocations.Length == MAX_ALLOCATIONS
      && numAllocations <= MAX_ALLOCATIONS
      && bitmap as object != allocations
    }

    ghost function Model(): State
      requires Ready()
      reads this, bitmap, allocations
    {
      State(memoryPool, Used(bitmap[..], totalBlocks), allocations[..numAllocations])
    }

    ghost predicate Valid()
      reads this, bitmap, allocations
    {
      Ready() && Consistent(Model())
    }

    /** `bitmapMemory` tells whether kzalloc succeeds, and `poolAddress` is what
        vzalloc returns, 0 when it fails. */
    method Init(bitmapMemory: bool, poolAddress: Address) returns (code: int)
      requires allocations.Length == MAX_ALLOCATIONS
      requires poolAddress + TOTAL_BLOCKS * BLOCK_SIZE <= WORD64
      modifies this, allocations
      ensures code == (if bitmapMemory && poolAddress != 0 then ALLOC_OK else ALLOC_NOMEM)
      ensures code == ALLOC_OK ==> Valid() && fresh(bitmap) && Model() == EmptyState(poolAddress, TOTAL_BLOCKS)
      ensures code != ALLOC_OK ==> bitmap == null && numAllocations == 0
    {
      forall i | 0 <= i < allocations.Length {
        allocations[i] := AllocationInfo(0, 0, 0);
      }
      bitmap, memoryPool, numAllocations := null, 0, 0;
      totalBlocks := TOTAL_BLOCKS;
      blockSize := BLOCK_SIZE;
      if !bitmapMemory {
        return ALLOC_NOMEM;
      }
      bitmap := new bv8[BITMAP_BYTES](_ => 0);
      memoryPool := poolAddress;
      if memoryPool == 0 {
        bitmap := null;
        return ALLOC_NOMEM;
      }
      assert Used(bitmap[..], totalBlocks) == EmptyState(poolAddress, TOTAL_BLOCKS).used by {
        forall i: nat | i < totalBlocks
          ensures !Bit(bitmap[..], i)
        {
          ZeroBit(i % 8);
        }
      }
      return ALLOC_OK;
    }

    method Alloc(bytes: Word) returns (ptr: Address)
      requires Valid()
      modifies this`numAllocations, bitmap, allocations
      ensures Valid() && bitmap == old(bitmap)
      ensures (Model(), ptr) == AllocStep(old(Model()), bytes)
    {
      ghost var s := Model();
      AllocKeepsConsistent(s, bytes);
      if bytes == 0 {
        return 0;
      }
      var numBlocks := (bytes + BLOCK_SIZE - 1) % WORD64 / BLOCK_SIZE;
      var start := FindFreeRegion(bitmap, totalBlocks, numBlocks);
      if start < 0 {
        return 0;
      }
      if numAllocations >= MAX_ALLOCATIONS {
        return 0;
      }
      FirstFitExact(s.used, numBlocks);
      ghost var before := bitmap[..];
      SetRegion(bitmap, start, numBlocks);
      FillPrefix(before, bitmap[..], totalBlocks, start, numBlocks, true);
      ptr := memoryPool + start * BLOCK_SIZE;
      allocations[numAllocations] := AllocationInfo(start, numBlocks, ptr);
      numAllocations := numAllocations + 1;
      assert allocations[..numAllocations] == s.table + [AllocationInfo(start, numBlocks, ptr)];
      assert (Model(), ptr) == AllocStep(s, bytes);
      assert Consistent(Model());
    }

    /** What Free does once it has found its record: clear the region and move
        the last record into the gap. */
    method Release(i: nat)
      requires Ready() && InRange(Model()) && i < numAllocations
      modifies this`numAllocations, bitmap, allocations
      ensures Ready() && bitmap == old(bitmap)
      ensures var s, a := old(Model()), old(allocations[i]);
        Model() == State(s.pool, Fill(s.used, a.startBlock, a.numBlocks, false), RemoveAt(s.table, i))
    {
      ghost var s := Model();
      ghost var before := bitmap[..];
      var a := allocations[i];
      assert a == s.table[i] && RecordOk(s, a);
      ClearRegion(bitmap, a.startBlock, a.numBlocks);
      FillPrefix(before, bitmap[..], totalBlocks, a.startBlock, a.numBlocks, false);
      numAllocations := numAllocations - 1;
      if i < numAllocations {
        allocations[i] := allocations[numAllocations];
      }
      assert allocations[..numAllocations] == RemoveAt(s.table, i);
    }

    method Free(ptr: Address) returns (code: int)
      requires Valid()
      modifies this`numAllocations, bitmap, allocations
      ensures Valid() && bitmap == old(bitmap)
      ensures (Model(), code) == FreeStep(old(Model()), ptr)
    {
      ghost var s := Model();
      FreeKeepsConsistent(s, ptr);
      if ptr == 0 {
        return ALLOC_INVALID;
      }
      var i: nat := 0;
      while i < numAllocations
        invariant i <= numAllocations
        invariant forall j: nat | j < i :: s.table[j].ptr != ptr
      {
        if allocations[i].ptr == ptr {
          assert i == IndexOf(s.table, ptr);
          Release(i);
          return ALLOC_OK;
        }
        i := i + 1;
      }
      return ALLOC_NOT_FOUND;
    }

    method GetStats() returns (stats: StatsInfo)
      requires Valid()
      ensures stats == StatsOf(Model())
      ensures stats.totalBlocks == |Model().used| && stats.totalMemory == |Model().used| * BLOCK_SIZE
      ensures stats.freeBlocks == |Fragmentation.FreeSet(Model().used)|
      ensures stats.freeMemory == |Fragmentation.FreeSet(Model().used)| * BLOCK_SIZE
      ensures stats.allocatedBlocks == stats.totalBlocks - stats.freeBlocks
      ensures stats.allocatedMemory == stats.totalMemory - stats.freeMemory
      ensures stats.fragmentationPercent == Percent(|Fragmentation.RunStarts(Model().used)|)
    {
      Fragmentation.FreeBlocksIsCard(Model().used);
      Fragmentation.FreeRunsIsCard(Model().used);
      var inUse := CountSet(bitmap, totalBlocks);
      var free := totalBlocks - inUse;
      var percent := FragmentationPercent(bitmap, totalBlocks);
      stats := StatsInfo(totalBlocks, free, inUse,
                         totalBlocks * blockSize, free * blockSize, inUse * blockSize, percent);
    }

    method Cleanup()
      modifies this
      ensures bitmap == null && memoryPool == 0 && numAllocations == 0
    {
      memoryPool := 0;
      bitmap := null;
      numAllocations := 0;
    }
  }
}

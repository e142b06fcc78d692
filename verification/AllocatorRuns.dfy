/**
 What holds in every state a run of alloc and free calls can reach.
 */
module AllocatorRuns {
  import opened Bitmap
  import opened Allocator
  import opened Text
  import opened AllocatorCalls
  import opened Fragmentation

  datatype Call = Alloc(bytes: Word) | Free(ptr: Address)

  // ---- runs

  ghost function CallStep(s: State, c: Call): (r: (State, int))
    requires Consistent(s)
    ensures Consistent(r.0) && r.0.pool == s.pool && |r.0.used| == |s.used|
  {
    match c
    case Alloc(bytes) => AllocKeepsConsistent(s, bytes); AllocExact(s, bytes); AllocStep(s, bytes)
    case Free(ptr) => FreeKeepsConsistent(s, ptr); FreeStep(s, ptr)
  }

  /** The state after the calls, and what each of them returned. */
  ghost function Run(s: State, calls: seq<Call>): (r: (State, seq<int>))
    requires Consistent(s)
    ensures Consistent(r.0) && r.0.pool == s.pool && |r.0.used| == |s.used|
    ensures |r.1| == |calls|
    decreases |calls|
  {
    if calls == [] then (s, [])
    else
      var (t, result) := CallStep(s, calls[0]);
      var (u, rest) := Run(t, calls[1..]);
      (u, [result] + rest)
  }

  ghost predicate Pool(pool: Address, total: nat) {
    0 < pool && pool + total * BLOCK_SIZE <= WORD64
  }

  lemma EmptyConsistent(pool: Address, total: nat)
    requires Pool(pool, total)
    ensures Consistent(EmptyState(pool, total))
  {
  }

  /** In every state reached from the initial one by any calls, bitmap, table
      and pool agree. */
  lemma ReachableConsistent(pool: Address, total: nat, calls: seq<Call>)
    requires Pool(pool, total)
    ensures Consistent(EmptyState(pool, total))
    ensures Consistent(Run(EmptyState(pool, total), calls).0)
  {
    EmptyConsistent(pool, total);
  }

  // ---- conservation

  function SumBlocks(table: seq<AllocationInfo>): nat {
    if table == [] then 0 else SumBlocks(table[..|table| - 1]) + table[|table| - 1].numBlocks
  }

  lemma FillCount(used: seq<bool>, start: nat, n: nat)
    requires FreeRun(used, start, n)
    ensures CountUsed(Fill(used, start, n, true)) == CountUsed(used) + n
  {
    var filled := Fill(used, start, n, true);
    FreeBlocksIsCard(used);
    FreeBlocksIsCard(filled);
    assert FreeSet(filled) !! Range(start, n);
    assert FreeSet(used) == FreeSet(filled) + Range(start, n);
  }

  lemma {:induction false} BitsAreRegions(s: State)
    requires Consistent(s)
    ensures CountUsed(s.used) == SumBlocks(s.table)
    decreases |s.table|
  {
    var last := |s.table| - 1;
    if s.table == [] {
      assert forall b: nat | b < |s.used| :: !Owned(s.table, b);
      NoneUsed(s.used);
    } else {
      var a := s.table[last];
      var t := State(s.pool, Fill(s.used, a.startBlock, a.numBlocks, false), s.table[..last]);
      FreeRecord(s, last);
      assert RemoveAt(s.table, last) == s.table[..last];
      BitsAreRegions(t);
      RegionCount(s, last);
    }
  }

  lemma RegionCount(s: State, i: nat)
    requires Consistent(s) && i < |s.table|
    ensures var a := s.table[i];
      CountUsed(s.used) == CountUsed(Fill(s.used, a.startBlock, a.numBlocks, false)) + a.numBlocks
  {
    var a := s.table[i];
    var freed := Fill(s.used, a.startBlock, a.numBlocks, false);
    assert forall b: nat | Covers(a, b) :: s.used[b];
    FillCount(freed, a.startBlock, a.numBlocks);
    assert Fill(freed, a.startBlock, a.numBlocks, true) == s.used;
  }

  lemma {:induction false} NoneUsed(used: seq<bool>)
    requires forall b: nat | b < |used| :: !used[b]
    ensures CountUsed(used) == 0
  {
    if used != [] {
      NoneUsed(used[..|used| - 1]);
    }
  }

  /** The statistics: the bit count is the sum of the live regions, free and
      allocated memory add up to the whole, and no size_t product wraps. */
  lemma StatsConserve(s: State)
    requires Consistent(s)
    ensures var stats := StatsOf(s);
      && stats.allocatedBlocks == SumBlocks(s.table)
      && stats.freeBlocks + stats.allocatedBlocks == stats.totalBlocks
      && stats.freeMemory + stats.allocatedMemory == stats.totalMemory < WORD64
      && FreeRuns(s.used) * 100 < WORD64
  {
    BitsAreRegions(s);
    RunsPositive(s.used);
  }

  /** Every figure on its own, counted on the bitmap and summed over the table. */
  lemma StatsExact(s: State)
    requires Consistent(s)
    ensures var stats := StatsOf(s);
      && stats.totalBlocks == |s.used| && stats.totalMemory == |s.used| * BLOCK_SIZE
      && stats.freeBlocks == |FreeSet(s.used)| && stats.freeMemory == |FreeSet(s.used)| * BLOCK_SIZE
      && stats.allocatedBlocks == SumBlocks(s.table) && stats.allocatedMemory == SumBlocks(s.table) * BLOCK_SIZE
      && stats.fragmentationPercent == Percent(|RunStarts(s.used)|)
  {
    BitsAreRegions(s);
    FreeBlocksIsCard(s.used);
    FreeRunsIsCard(s.used);
  }

  // ---- how bad fragmentation can get

  ghost function Ends(table: seq<AllocationInfo>): set<nat> {
    set i: nat | i < |table| :: table[i].startBlock + table[i].numBlocks
  }

  lemma {:induction false} EndsCard(table: seq<AllocationInfo>)
    ensures |Ends(table)| <= |table|
  {
    if table != [] {
      var last := |table| - 1;
      var e := table[last].startBlock + table[last].numBlocks;
      EndsCard(table[..last]);
      SubsetCard(Ends(table), Ends(table[..last]) + {e});
    }
  }

  /** Every free run but one at block 0 begins where a live region ends. */
  lemma RunsAtMostAllocationsPlusOne(s: State)
    requires Consistent(s)
    ensures FreeRuns(s.used) <= |s.table| + 1
  {
    forall b: nat | b in RunStarts(s.used)
      ensures b in Ends(s.table) + {0}
    {
      if b > 0 {
        assert StartsRun(s.used, b) && Owned(s.table, b - 1) && !Owned(s.table, b);
        var i: nat :| i < |s.table| && Covers(s.table[i], b - 1);
        assert !Covers(s.table[i], b);
        assert s.table[i].startBlock + s.table[i].numBlocks == b;
      }
    }
    SubsetCard(RunStarts(s.used), Ends(s.table) + {0});
    EndsCard(s.table);
    FreeRunsIsCard(s.used);
  }

  lemma NoFitBound(s: State, n: nat)
    requires Consistent(s) && n > 0 && !Fits(s.used, n)
    ensures FreeBlocks(s.used) <= (|s.table| + 1) * (n - 1)
  {
    Pigeonhole(s.used, n);
    RunsAtMostAllocationsPlusOne(s);
    Scale(FreeRuns(s.used), |s.table| + 1, n - 1);
  }

  lemma Scale(a: nat, b: nat, c: nat)
    requires a <= b
    ensures a * c <= b * c
  {
  }

  /** The pigeonhole guarantee: with a slot left, a request for n blocks
      succeeds once more than (live + 1) * (n - 1) blocks are free. */
  lemma PigeonholeGuarantee(s: State, bytes: Word)
    requires Consistent(s) && bytes > 0 && |s.table| < MAX_ALLOCATIONS
    requires FreeBlocks(s.used) > (|s.table| + 1) * (BlocksNeeded(bytes) - 1)
    ensures AllocStep(s, bytes).1 != 0
  {
    AllocExact(s, bytes);
    if !Fits(s.used, BlocksNeeded(bytes)) {
      NoFitBound(s, BlocksNeeded(bytes));
    }
  }

  /** With a slot left, the reported fragmentation is 0 exactly when every
      request for at least one byte and at most the free memory succeeds. */
  lemma ZeroFragmentationMeans(s: State)
    requires Consistent(s) && |s.table| < MAX_ALLOCATIONS
    ensures StatsOf(s).fragmentationPercent == 0
       <==> forall bytes: Word | 0 < bytes <= StatsOf(s).freeMemory :: AllocStep(s, bytes).1 != 0
  {
    ZeroFragmentation(s.used);
    var free := FreeBlocks(s.used);
    if Percent(FreeRuns(s.used)) == 0 {
      forall bytes: Word | 0 < bytes <= free * BLOCK_SIZE
        ensures AllocStep(s, bytes).1 != 0
      {
        assert 1 <= BlocksNeeded(bytes) <= free;
        AllocExact(s, bytes);
      }
    } else {
      var n: nat :| 1 <= n <= free && !Fits(s.used, n);
      AllocExact(s, n * BLOCK_SIZE);
      assert BlocksNeeded(n * BLOCK_SIZE) == n;
    }
  }

  ghost predicate UsedExactly(used: seq<bool>, lo: nat, hi: nat) {
    forall b: nat | b < |used| :: used[b] <==> lo <= b < hi
  }

  lemma AllocNext(s: State, bytes: Word, hi: nat)
    requires Consistent(s) && |s.table| < MAX_ALLOCATIONS && UsedExactly(s.used, 0, hi)
    requires bytes > 0 && hi + BlocksNeeded(bytes) <= |s.used|
    ensures var (t, ptr) := AllocStep(s, bytes);
      && ptr == s.pool + hi * BLOCK_SIZE
      && UsedExactly(t.used, 0, hi + BlocksNeeded(bytes))
      && t.table == s.table + [AllocationInfo(hi, BlocksNeeded(bytes), ptr)]
  {
    RoundUp(bytes);
    forall b: nat | b < hi
      ensures !FreeRun(s.used, b, BlocksNeeded(bytes))
    {
      assert s.used[b];
    }
    FirstFitIsLeast(s.used, BlocksNeeded(bytes), hi);
  }

  lemma HoleAtFront(used: seq<bool>, lo: nat, hi: nat)
    requires 0 < lo < hi < |used| && UsedExactly(used, lo, hi)
    ensures FreeRuns(used) == 2
  {
    forall b: nat
      ensures StartsRun(used, b) <==> b == 0 || b == hi
    {
    }
    assert RunStarts(used) == {0, hi};
    FreeRunsIsCard(used);
  }

  /** The assignment's own example (allocate 8 KiB and 16 KiB, release the
      first) promises a fragmentation of 0; the code reports 50. */
  lemma ExampleFragmentation(pool: Address)
    requires Pool(pool, TOTAL_BLOCKS)
    ensures Consistent(EmptyState(pool, TOTAL_BLOCKS))
    ensures var (s, results) := Run(EmptyState(pool, TOTAL_BLOCKS), [Alloc(8192), Alloc(16384), Free(pool)]);
      && results == [pool, pool + 8192, ALLOC_OK]
      && StatsOf(s).fragmentationPercent == 50
  {
    var s0 := EmptyState(pool, TOTAL_BLOCKS);
    EmptyConsistent(pool, TOTAL_BLOCKS);
    AllocNext(s0, 8192, 0);
    var (s1, p1) := CallStep(s0, Alloc(8192));
    AllocNext(s1, 16384, 2);
    var (s2, p2) := CallStep(s1, Alloc(16384));
    DistinctPointers(s2, 0, IndexOf(s2.table, pool));
    var (s3, code) := CallStep(s2, Free(pool));
    HoleAtFront(s3.used, 2, 6);
    RunOne(s2, Free(pool));
    RunCons(s1, Alloc(16384), [Free(pool)]);
    RunCons(s0, Alloc(8192), [Alloc(16384), Free(pool)]);
  }

  lemma RunCons(s: State, c: Call, calls: seq<Call>)
    requires Consistent(s)
    ensures var (t, result) := CallStep(s, c);
      Run(s, [c] + calls) == (Run(t, calls).0, [result] + Run(t, calls).1)
  {
    assert ([c] + calls)[1..] == calls;
  }

  lemma RunOne(s: State, c: Call)
    requires Consistent(s)
    ensures Run(s, [c]) == (CallStep(s, c).0, [CallStep(s, c).1])
  {
    RunCons(s, c, []);
    assert [c] + [] == [c];
    assert [CallStep(s, c).1] + [] == [CallStep(s, c).1];
  }

  // ---- releasing everything

  function Frees(order: seq<Address>): seq<Call> {
    seq(|order|, i requires 0 <= i < |order| => Free(order[i]))
  }

  lemma NoPointersNoRecords(table: seq<AllocationInfo>)
    ensures Pointers(table) == {} ==> table == []
  {
    assert table != [] ==> table[0].ptr in Pointers(table);
  }

  /** Releasing all live pointers, each once and in any order, leaves an
      all-zero bitmap and an empty table, and every release succeeds. */
  lemma {:induction false} FreeAllInAnyOrder(s: State, order: seq<Address>)
    requires Consistent(s)
    requires forall i: nat, j: nat | i < j < |order| :: order[i] != order[j]
    requires (set p | p in order) == Pointers(s.table)
    ensures Run(s, Frees(order)).0 == EmptyState(s.pool, |s.used|)
    ensures forall i: nat | i < |order| :: Run(s, Frees(order)).1[i] == ALLOC_OK
    decreases |order|
  {
    if order == [] {
      NoPointersNoRecords(s.table);
      assert forall b: nat | b < |s.used| :: !Owned(s.table, b);
      assert s.used == EmptyState(s.pool, |s.used|).used;
    } else {
      assert order[0] in Pointers(s.table);
      FreeExact(s, order[0]);
      var t := CallStep(s, Free(order[0])).0;
      assert forall p :: p in order[1..] <==> p in order && p != order[0];
      FreeAllInAnyOrder(t, order[1..]);
      assert Frees(order) == [Free(order[0])] + Frees(order[1..]);
      RunCons(s, Free(order[0]), Frees(order[1..]));
    }
  }
}

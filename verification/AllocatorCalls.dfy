/**
 What one call of the allocator promises in every consistent state: when it
 succeeds, what it returns, and how allocation and release undo each other.
 */
module AllocatorCalls {
  import opened Bitmap
  import opened Allocator
  import opened Text
  import opened Fragmentation

  // ---- the round-up

  /** Blocks a request needs, in unbounded arithmetic. */
  function BlocksNeeded(bytes: nat): nat {
    (bytes + BLOCK_SIZE - 1) / BLOCK_SIZE
  }

  /** The 64-bit round-up wraps to 0 for the last 4095 sizes and is exact below them. */
  lemma RoundUp(bytes: Word)
    ensures BlocksFor(bytes) == if bytes + BLOCK_SIZE <= WORD64 then BlocksNeeded(bytes) else 0
    ensures bytes <= BlocksNeeded(bytes) * BLOCK_SIZE < bytes + BLOCK_SIZE
  {
  }

  // ---- exact success of a request

  /** A request succeeds exactly when it is for at least one byte, a table slot
      is left and the blocks it truly needs are free in a row; the wrap of the
      round-up never turns that answer round.  It then takes the leftmost run,
      and a request that fails changes nothing. */
  lemma AllocExact(s: State, bytes: Word)
    requires Consistent(s)
    ensures var (t, ptr) := AllocStep(s, bytes);
      && (ptr != 0 <==> bytes > 0 && |s.table| < MAX_ALLOCATIONS && Fits(s.used, BlocksNeeded(bytes)))
      && (ptr == 0 ==> t == s)
      && (ptr != 0 ==>
            exists start: nat ::
              && FreeRun(s.used, start, BlocksNeeded(bytes))
              && (forall b: nat | b < start :: !FreeRun(s.used, b, BlocksNeeded(bytes)))
              && ptr == s.pool + start * BLOCK_SIZE
              && t.table == s.table + [AllocationInfo(start, BlocksNeeded(bytes), ptr)])
  {
    RoundUp(bytes);
    FirstFitExact(s.used, BlocksFor(bytes));
    var start := FirstFit(s.used, BlocksFor(bytes));
    if start >= 0 {
      assert FreeRun(s.used, start, BlocksFor(bytes));
    }
  }

  /** A wrapped request rounds to 0 blocks, and the scan finds no place for it. */
  lemma WrappedRequestFails(s: State, bytes: Word)
    requires bytes + BLOCK_SIZE > WORD64
    ensures BlocksFor(bytes) == 0
    ensures AllocStep(s, bytes) == (s, 0)
  {
    RoundUp(bytes);
  }

  // ---- release

  ghost function Pointers(table: seq<AllocationInfo>): set<Address> {
    set i: nat | i < |table| :: table[i].ptr
  }

  lemma DistinctPointers(s: State, i: nat, j: nat)
    requires Consistent(s) && i < |s.table| && j < |s.table|
    ensures s.table[i].ptr == s.table[j].ptr <==> i == j
  {
    assert RecordOk(s, s.table[i]) && RecordOk(s, s.table[j]);
  }

  lemma FreeRecord(s: State, i: nat)
    requires Consistent(s) && i < |s.table|
    ensures var a := s.table[i];
      FreeStep(s, a.ptr) == (State(s.pool, Fill(s.used, a.startBlock, a.numBlocks, false), RemoveAt(s.table, i)), ALLOC_OK)
    ensures Consistent(FreeStep(s, s.table[i].ptr).0)
  {
    assert RecordOk(s, s.table[i]);
    var k := IndexOf(s.table, s.table[i].ptr);
    assert k < |s.table|;
    DistinctPointers(s, i, k);
    FreeKeepsConsistent(s, s.table[i].ptr);
  }

  /** Release succeeds exactly for a live pointer, which it makes not live;
      for any other it reports the right error and changes nothing. */
  lemma FreeExact(s: State, ptr: Address)
    requires Consistent(s)
    ensures var (t, code) := FreeStep(s, ptr);
      && (code == ALLOC_OK <==> ptr in Pointers(s.table))
      && (code == ALLOC_INVALID <==> ptr == 0)
      && (code == ALLOC_NOT_FOUND <==> ptr != 0 && ptr !in Pointers(s.table))
      && (code != ALLOC_OK ==> t == s)
      && (code == ALLOC_OK ==> Pointers(t.table) == Pointers(s.table) - {ptr} && |t.table| == |s.table| - 1)
  {
    var (t, code) := FreeStep(s, ptr);
    var i := IndexOf(s.table, ptr);
    if i < |s.table| {
      assert RecordOk(s, s.table[i]);
      assert ptr in Pointers(s.table);
      if code == ALLOC_OK {
        RemovedPointers(s, i);
      }
    }
  }

  lemma RemovedPointers(s: State, i: nat)
    requires Consistent(s) && i < |s.table|
    ensures Pointers(RemoveAt(s.table, i)) == Pointers(s.table) - {s.table[i].ptr}
  {
    var r := RemoveAt(s.table, i);
    forall p | p in Pointers(r)
      ensures p in Pointers(s.table) && p != s.table[i].ptr
    {
      var j: nat :| j < |r| && r[j].ptr == p;
      DistinctPointers(s, i, if j == i then |r| else j);
    }
    forall p | p in Pointers(s.table) && p != s.table[i].ptr
      ensures p in Pointers(r)
    {
      var j: nat :| j < |s.table| && s.table[j].ptr == p;
      assert r[if j == |r| then i else j].ptr == p;
    }
  }

  /** Releasing what was just allocated restores bitmap and table exactly. */
  lemma FreeUndoesAlloc(s: State, bytes: Word)
    requires Consistent(s)
    ensures var (t, ptr) := AllocStep(s, bytes);
      ptr != 0 ==> Consistent(t) && FreeStep(t, ptr) == (s, ALLOC_OK)
  {
    var (t, ptr) := AllocStep(s, bytes);
    AllocKeepsConsistent(s, bytes);
    FirstFitExact(s.used, BlocksFor(bytes));
    if ptr != 0 {
      var last := |s.table|;
      var i := IndexOf(t.table, ptr);
      DistinctPointers(t, last, if i < |t.table| then i else last);
      assert i == last;
      var a := t.table[last];
      assert Fill(t.used, a.startBlock, a.numBlocks, false) == s.used;
      assert RemoveAt(t.table, last) == s.table;
    }
  }

  /** A pointer cannot be released twice. */
  lemma SecondFreeNotFound(s: State, ptr: Address)
    requires Consistent(s)
    ensures var (t, code) := FreeStep(s, ptr);
      code == ALLOC_OK ==> FreeStep(t, ptr) == (t, ALLOC_NOT_FOUND)
  {
    FreeExact(s, ptr);
    FreeKeepsConsistent(s, ptr);
    FreeExact(FreeStep(s, ptr).0, ptr);
  }

  // ---- coalescing

  /** A run that is free and long enough bounds where first fit puts a request. */
  lemma AllocNoFurtherThan(s: State, start: nat, bytes: Word)
    requires Consistent(s) && bytes > 0 && |s.table| < MAX_ALLOCATIONS
    requires FreeRun(s.used, start, BlocksNeeded(bytes))
    ensures 0 != AllocStep(s, bytes).1 <= s.pool + start * BLOCK_SIZE
  {
    assert Fits(s.used, BlocksNeeded(bytes));
    AllocExact(s, bytes);
  }

  lemma FreeTwo(s: State, i: nat, j: nat)
    requires Consistent(s) && i < |s.table| && j < |s.table| && i != j
    ensures var (t, c1) := FreeStep(s, s.table[i].ptr);
      && c1 == ALLOC_OK && Consistent(t)
      && var (u, c2) := FreeStep(t, s.table[j].ptr);
      && c2 == ALLOC_OK && Consistent(u)
      && u.pool == s.pool && |u.table| < |s.table| && |u.used| == |s.used|
      && forall b: nat | b < |s.used| && (Covers(s.table[i], b) || Covers(s.table[j], b)) :: !u.used[b]
  {
    FreeRecord(s, i);
    var t := FreeStep(s, s.table[i].ptr).0;
    var k := if j == |t.table| then i else j;
    assert t.table[k] == s.table[j];
    FreeRecord(t, k);
  }

  predicate Adjacent(lower: AllocationInfo, upper: AllocationInfo) {
    lower.startBlock + lower.numBlocks == upper.startBlock
  }

  /** Freeing two neighbours, in either order, leaves one run: a request for
      both their sizes then succeeds, no further right than the lower one. */
  lemma Coalesce(s: State, i: nat, j: nat, bytes: Word)
    requires Consistent(s) && i < |s.table| && j < |s.table|
    requires Adjacent(s.table[i], s.table[j]) || Adjacent(s.table[j], s.table[i])
    requires BlocksNeeded(bytes) == s.table[i].numBlocks + s.table[j].numBlocks
    ensures var (t, c1) := FreeStep(s, s.table[i].ptr);
      && c1 == ALLOC_OK && Consistent(t)
      && var (u, c2) := FreeStep(t, s.table[j].ptr);
      && c2 == ALLOC_OK
      && var ptr := AllocStep(u, bytes).1;
      ptr != 0 && ptr <= s.table[i].ptr && ptr <= s.table[j].ptr
  {
    assert RecordOk(s, s.table[i]) && RecordOk(s, s.table[j]);
    FreeTwo(s, i, j);
    var u := FreeStep(FreeStep(s, s.table[i].ptr).0, s.table[j].ptr).0;
    var lower := if s.table[i].startBlock < s.table[j].startBlock then s.table[i] else s.table[j];
    AllocNoFurtherThan(u, lower.startBlock, bytes);
  }
}

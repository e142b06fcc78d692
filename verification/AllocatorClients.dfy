/**
 The allocator as its callers see it: the byte ranges they hold never meet,
 and the order of the table is not observable.
 */
module AllocatorClients {
  import opened Allocator
  import opened Text
  import opened AllocatorCalls
  import opened AllocatorRuns
  import opened Maps

  // ---- the bytes the callers asked for

  /** A run that also records, for each live pointer, the size asked for. */
  ghost function Track(s: State, live: map<Address, nat>, calls: seq<Call>): (r: (State, map<Address, nat>))
    requires Consistent(s)
    ensures Consistent(r.0) && r.0 == Run(s, calls).0
    decreases |calls|
  {
    if calls == [] then (s, live)
    else
      var (t, result) := CallStep(s, calls[0]);
      Track(t, Recorded(live, calls[0], result), calls[1..])
  }

  ghost function Recorded(live: map<Address, nat>, c: Call, result: int): map<Address, nat> {
    match c
    case Alloc(bytes) => if result > 0 then live[result := bytes] else live
    case Free(ptr) => if result == ALLOC_OK then live - {ptr} else live
  }

  /** The recorded pointers are those in the table, each with room for its request. */
  ghost predicate Held(s: State, live: map<Address, nat>) {
    && live.Keys == Pointers(s.table)
    && forall i: nat | i < |s.table| ::
         0 < live[s.table[i].ptr] <= s.table[i].numBlocks * BLOCK_SIZE
  }

  lemma HeldAfterAlloc(s: State, live: map<Address, nat>, bytes: Word)
    requires Consistent(s) && Held(s, live)
    ensures var (t, ptr) := AllocStep(s, bytes);
      Held(t, Recorded(live, Alloc(bytes), ptr))
  {
    var (t, ptr) := AllocStep(s, bytes);
    RoundUp(bytes);
    AllocExact(s, bytes);
    AllocKeepsConsistent(s, bytes);
    if ptr != 0 {
      var last := |s.table|;
      forall i: nat | i < last
        ensures t.table[i] == s.table[i] && s.table[i].ptr != ptr
      {
        DistinctPointers(t, i, last);
      }
      assert t.table[last].ptr == ptr;
      assert Pointers(t.table) == Pointers(s.table) + {ptr};
    }
  }

  lemma HeldAfterFree(s: State, live: map<Address, nat>, ptr: Address)
    requires Consistent(s) && Held(s, live)
    ensures var (t, code) := FreeStep(s, ptr);
      Held(t, Recorded(live, Free(ptr), code))
  {
    var (t, code) := FreeStep(s, ptr);
    FreeExact(s, ptr);
    if code == ALLOC_OK {
      var i := IndexOf(s.table, ptr);
      forall j: nat | j < |t.table|
        ensures t.table[j].ptr in live && t.table[j].ptr != ptr
        ensures 0 < live[t.table[j].ptr] <= t.table[j].numBlocks * BLOCK_SIZE
      {
        var k := if j == i then |t.table| else j;
        assert t.table[j] == s.table[k];
        DistinctPointers(s, i, k);
      }
    }
  }

  lemma {:induction false} HeldAlong(s: State, live: map<Address, nat>, calls: seq<Call>)
    requires Consistent(s) && Held(s, live)
    ensures var (t, live') := Track(s, live, calls); Held(t, live')
    decreases |calls|
  {
    if calls != [] {
      var (t, result) := CallStep(s, calls[0]);
      match calls[0] {
        case Alloc(bytes) => HeldAfterAlloc(s, live, bytes);
        case Free(ptr) => HeldAfterFree(s, live, ptr);
      }
      HeldAlong(t, Recorded(live, calls[0], result), calls[1..]);
    }
  }

  lemma HeldRange(s: State, live: map<Address, nat>, p: Address) returns (i: nat)
    requires Consistent(s) && Held(s, live) && p in live
    ensures i < |s.table| && s.table[i].ptr == p == s.pool + s.table[i].startBlock * BLOCK_SIZE
    ensures 0 < live[p] <= s.table[i].numBlocks * BLOCK_SIZE
    ensures s.table[i].startBlock + s.table[i].numBlocks <= |s.used|
  {
    assert p in Pointers(s.table);
    i :| i < |s.table| && s.table[i].ptr == p;
    assert RecordOk(s, s.table[i]);
  }

  /** A pointer handed out is not one that is still held. */
  lemma NewPointer(s: State, live: map<Address, nat>, bytes: Word)
    requires Consistent(s) && Held(s, live)
    ensures var ptr := AllocStep(s, bytes).1;
      ptr != 0 ==> ptr !in live
  {
    var (t, ptr) := AllocStep(s, bytes);
    AllocExact(s, bytes);
    AllocKeepsConsistent(s, bytes);
    if ptr != 0 && ptr in live {
      var i := HeldRange(s, live, ptr);
      assert t.table[i] == s.table[i];
      DistinctPointers(t, i, |s.table|);
    }
  }

  lemma HeldApart(s: State, live: map<Address, nat>, p: Address, q: Address)
    requires Consistent(s) && Held(s, live) && p in live && q in live && p != q
    ensures p + live[p] <= q || q + live[q] <= p
  {
    var i := HeldRange(s, live, p);
    var j := HeldRange(s, live, q);
    assert i < j ==> Apart(s.table[i], s.table[j]);
    assert j < i ==> Apart(s.table[j], s.table[i]);
  }

  /** After any calls whatever, every byte range handed out and not released
      lies in the pool, no two of them meet, and no further request is given a
      pointer that is still held. */
  lemma LiveRangesDisjoint(pool: Address, total: nat, calls: seq<Call>)
    requires Pool(pool, total)
    ensures Consistent(EmptyState(pool, total))
    ensures var (s, live) := Track(EmptyState(pool, total), map[], calls);
      && (forall p | p in live :: pool <= p < p + live[p] <= pool + total * BLOCK_SIZE)
      && (forall p, q | p in live && q in live && p != q :: p + live[p] <= q || q + live[q] <= p)
      && (forall bytes: Word :: AllocStep(s, bytes).1 != 0 ==> AllocStep(s, bytes).1 !in live)
  {
    var s0 := EmptyState(pool, total);
    EmptyConsistent(pool, total);
    HeldAlong(s0, map[], calls);
    var (s, live) := Track(s0, map[], calls);
    forall p | p in live
      ensures pool <= p < p + live[p] <= pool + total * BLOCK_SIZE
    {
      var i := HeldRange(s, live, p);
    }
    forall p, q | p in live && q in live && p != q
      ensures p + live[p] <= q || q + live[q] <= p
    {
      HeldApart(s, live, p, q);
    }
    forall bytes: Word
      ensures AllocStep(s, bytes).1 != 0 ==> AllocStep(s, bytes).1 !in live
    {
      NewPointer(s, live, bytes);
    }
  }

  // ---- the table's order is not observable

  ghost function Regions(table: seq<AllocationInfo>): set<AllocationInfo> {
    set a | a in table
  }

  /** Two states with the same live regions, recorded in whatever order. */
  ghost predicate SameRegions(s: State, t: State) {
    && Consistent(s) && Consistent(t)
    && s.pool == t.pool && |s.used| == |t.used|
    && Regions(s.table) == Regions(t.table)
  }

  lemma SameBits(s: State, t: State)
    requires SameRegions(s, t)
    ensures s.used == t.used && |s.table| == |t.table|
  {
    forall b: nat | b < |s.used|
      ensures s.used[b] == t.used[b]
    {
      OwnedByRegion(s.table, b);
      OwnedByRegion(t.table, b);
    }
    forall i: nat, j: nat | i < j < |s.table| ensures s.table[i] != s.table[j] { DistinctPointers(s, i, j); }
    forall i: nat, j: nat | i < j < |t.table| ensures t.table[i] != t.table[j] { DistinctPointers(t, i, j); }
    NoDuplicatesCard(s.table);
    NoDuplicatesCard(t.table);
  }

  lemma OwnedByRegion(table: seq<AllocationInfo>, block: nat)
    ensures Owned(table, block) <==> exists a :: a in Regions(table) && Covers(a, block)
  {
    if a :| a in Regions(table) && Covers(a, block) {
      var i: nat :| i < |table| && table[i] == a;
      assert Covers(table[i], block);
    }
  }

  lemma FreedRegion(s: State, i: nat)
    requires Consistent(s) && i < |s.table|
    ensures Regions(RemoveAt(s.table, i)) == Regions(s.table) - {s.table[i]}
  {
    var r := RemoveAt(s.table, i);
    forall a | a in r
      ensures a in s.table && a != s.table[i]
    {
      var j: nat :| j < |r| && r[j] == a;
      DistinctPointers(s, i, if j == i then |r| else j);
    }
    forall a | a in s.table && a != s.table[i]
      ensures a in r
    {
      var j: nat :| j < |s.table| && s.table[j] == a;
      assert r[if j == |r| then i else j] == a;
    }
  }

  lemma PointersOfRegions(table: seq<AllocationInfo>, other: seq<AllocationInfo>)
    requires Regions(table) <= Regions(other)
    ensures Pointers(table) <= Pointers(other)
  {
    forall p | p in Pointers(table)
      ensures p in Pointers(other)
    {
      var i: nat :| i < |table| && table[i].ptr == p;
      assert table[i] in Regions(other);
      var j: nat :| j < |other| && other[j] == table[i];
    }
  }

  lemma SameAfterFree(s: State, t: State, ptr: Address)
    requires SameRegions(s, t)
    ensures FreeStep(s, ptr).1 == FreeStep(t, ptr).1
    ensures SameRegions(FreeStep(s, ptr).0, FreeStep(t, ptr).0)
  {
    FreeKeepsConsistent(s, ptr);
    FreeKeepsConsistent(t, ptr);
    PointersOfRegions(s.table, t.table);
    PointersOfRegions(t.table, s.table);
    FreeExact(s, ptr);
    FreeExact(t, ptr);
    if FreeStep(s, ptr).1 == ALLOC_OK {
      var i, j := IndexOf(s.table, ptr), IndexOf(t.table, ptr);
      assert s.table[i] in Regions(t.table);
      var k: nat :| k < |t.table| && t.table[k] == s.table[i];
      DistinctPointers(t, j, k);
      FreedRegion(s, i);
      FreedRegion(t, j);
    }
  }

  lemma SameAfterAlloc(s: State, t: State, bytes: Word)
    requires SameRegions(s, t)
    ensures AllocStep(s, bytes).1 == AllocStep(t, bytes).1
    ensures SameRegions(AllocStep(s, bytes).0, AllocStep(t, bytes).0)
  {
    SameBits(s, t);
    AllocKeepsConsistent(s, bytes);
    AllocKeepsConsistent(t, bytes);
    var (s', ptr) := AllocStep(s, bytes);
    var t' := AllocStep(t, bytes).0;
    if s' != s {
      var a := s'.table[|s.table|];
      assert Regions(s'.table) == Regions(s.table) + {a};
      assert Regions(t'.table) == Regions(t.table) + {a};
    }
  }

  /** However the swaps of earlier releases have ordered the table, two states
      with the same live regions answer every further sequence of calls alike. */
  lemma {:induction false} OrderNotObservable(s: State, t: State, calls: seq<Call>)
    requires SameRegions(s, t)
    ensures Run(s, calls).1 == Run(t, calls).1
    ensures SameRegions(Run(s, calls).0, Run(t, calls).0)
    ensures Run(s, calls).0.used == Run(t, calls).0.used
    decreases |calls|
  {
    if calls == [] {
      SameBits(s, t);
    } else {
      match calls[0] {
        case Alloc(bytes) => SameAfterAlloc(s, t, bytes);
        case Free(ptr) => SameAfterFree(s, t, ptr);
      }
      OrderNotObservable(CallStep(s, calls[0]).0, CallStep(t, calls[0]).0, calls[1..]);
    }
  }
}

/**
 The block bitmap of the HW_05 allocator: one bit a block, packed eight to a
 byte, 1 for a block in use.  The byte buffer is changed in place; its meaning
 is the sequence of booleans `Used`, and every operation is specified on that.
 */
module Bitmap {

  // ---- one byte

  /** Bit k of a byte, read as the source reads it. */
  predicate ByteBit(b: bv8, k: nat)
    requires k < 8
  {
    (b >> k) & 1 == 1
  }

  /** The byte with bit k alone. */
  function Mask(k: nat): (m: bv8)
    requires k < 8
    ensures forall j: nat | j < 8 :: ByteBit(m, j) == (j == k)
  {
    assert k == 0 || k == 1 || k == 2 || k == 3 || k == 4 || k == 5 || k == 6 || k == 7;
    1 << k
  }

  lemma ZeroBit(j: nat)
    requires j < 8
    ensures !ByteBit(0, j)
  {
    assert j == 0 || j == 1 || j == 2 || j == 3 || j == 4 || j == 5 || j == 6 || j == 7;
  }

  lemma OrBit(b: bv8, m: bv8, j: nat)
    requires j < 8
    ensures ByteBit(b | m, j) == (ByteBit(b, j) || ByteBit(m, j))
  {
    if j == 0 {} else if j == 1 {} else if j == 2 {} else if j == 3 {}
    else if j == 4 {} else if j == 5 {} else if j == 6 {} else { assert j == 7; }
  }

  lemma AndNotBit(b: bv8, m: bv8, j: nat)
    requires j < 8
    ensures ByteBit(b & !m, j) == (ByteBit(b, j) && !ByteBit(m, j))
  {
    if j == 0 {} else if j == 1 {} else if j == 2 {} else if j == 3 {}
    else if j == 4 {} else if j == 5 {} else if j == 6 {} else { assert j == 7; }
  }

  // ---- the whole buffer, as a sequence of booleans

  predicate Bit(bytes: seq<bv8>, i: nat)
    requires i / 8 < |bytes|
  {
    ByteBit(bytes[i / 8], i % 8)
  }

  /** What bit k adds to its byte: 2 to the power of k. */
  function Weight(k: nat): bv8
    requires k < 8
  {
    if k == 0 then 1 else if k == 1 then 2 else if k == 2 then 4 else if k == 3 then 8
    else if k == 4 then 16 else if k == 5 then 32 else if k == 6 then 64 else 128
  }

  function Part(used: bool, k: nat): bv8
    requires k < 8
  {
    if used then Weight(k) else 0
  }

  /** Blocks 8k to 8k + 7 are the binary digits of byte k, the lowest first. */
  lemma BytesAreBits(bytes: seq<bv8>, k: nat)
    requires k < |bytes|
    ensures bytes[k] == Part(Bit(bytes, 8 * k), 0) + Part(Bit(bytes, 8 * k + 1), 1)
                      + Part(Bit(bytes, 8 * k + 2), 2) + Part(Bit(bytes, 8 * k + 3), 3)
                      + Part(Bit(bytes, 8 * k + 4), 4) + Part(Bit(bytes, 8 * k + 5), 5)
                      + Part(Bit(bytes, 8 * k + 6), 6) + Part(Bit(bytes, 8 * k + 7), 7)
  {
    ByteIsSum(bytes[k]);
    forall j: nat | j < 8
      ensures Bit(bytes, 8 * k + j) == ByteBit(bytes[k], j)
    {
      BitOf(bytes, k, j);
    }
    assert Bit(bytes, 8 * k + 0) == ByteBit(bytes[k], 0);
  }

  lemma BitOf(bytes: seq<bv8>, k: nat, j: nat)
    requires k < |bytes| && j < 8
    ensures Bit(bytes, 8 * k + j) == ByteBit(bytes[k], j)
  {
    assert (8 * k + j) / 8 == k && (8 * k + j) % 8 == j;
  }

  lemma ByteIsSum(b: bv8)
    ensures b == Part(ByteBit(b, 0), 0) + Part(ByteBit(b, 1), 1) + Part(ByteBit(b, 2), 2) + Part(ByteBit(b, 3), 3)
               + Part(ByteBit(b, 4), 4) + Part(ByteBit(b, 5), 5) + Part(ByteBit(b, 6), 6) + Part(ByteBit(b, 7), 7)
  {
  }

  /** One step of the setting loop: bit i becomes 1 and every other bit stays. */
  function BitSet(bytes: seq<bv8>, i: nat): (r: seq<bv8>)
    requires i / 8 < |bytes|
    ensures |r| == |bytes|
    ensures forall j: nat | j < 8 * |bytes| :: Bit(r, j) == (j == i || Bit(bytes, j))
  {
    forall j: nat | j < 8 * |bytes| {
      OrBit(bytes[i / 8], Mask(i % 8), j % 8);
    }
    bytes[i / 8 := bytes[i / 8] | Mask(i % 8)]
  }

  /** One step of the clearing loop: bit i becomes 0 and every other bit stays. */
  function BitCleared(bytes: seq<bv8>, i: nat): (r: seq<bv8>)
    requires i / 8 < |bytes|
    ensures |r| == |bytes|
    ensures forall j: nat | j < 8 * |bytes| :: Bit(r, j) == (j != i && Bit(bytes, j))
  {
    var b := bytes[i / 8] & !Mask(i % 8);
    assert forall j: nat | j < 8 :: ByteBit(b, j) == (ByteBit(bytes[i / 8], j) && j != i % 8) by {
      forall j: nat | j < 8 {
        AndNotBit(bytes[i / 8], Mask(i % 8), j);
      }
    }
    bytes[i / 8 := b]
  }

  /** The first `total` blocks of a bitmap, true for a block in use. */
  function Used(bytes: seq<bv8>, total: nat): (used: seq<bool>)
    requires total <= 8 * |bytes|
    ensures |used| == total
    ensures forall i: nat | i < total :: used[i] == Bit(bytes, i)
  {
    seq(total, i requires 0 <= i < total => Bit(bytes, i))
  }

  /** `used` with blocks [start, start + n) given the value v. */
  function Fill(used: seq<bool>, start: nat, n: nat, v: bool): (r: seq<bool>)
    requires start + n <= |used|
    ensures |r| == |used|
    ensures forall i: nat | i < |used| :: r[i] == if start <= i < start + n then v else used[i]
  {
    seq(|used|, i requires 0 <= i < |used| => if start <= i < start + n then v else used[i])
  }

  lemma FillPrefix(before: seq<bv8>, after: seq<bv8>, total: nat, start: nat, n: nat, v: bool)
    requires |before| == |after| && start + n <= total <= 8 * |before|
    requires Used(after, 8 * |after|) == Fill(Used(before, 8 * |before|), start, n, v)
    ensures Used(after, total) == Fill(Used(before, total), start, n, v)
  {
    forall i: nat | i < total
      ensures Used(after, total)[i] == Fill(Used(before, total), start, n, v)[i]
    {
      assert Used(after, 8 * |after|)[i] == Bit(after, i);
    }
  }

  /** Blocks [start, start + n) exist and are all free. */
  ghost predicate FreeRun(used: seq<bool>, start: nat, n: nat)
  {
    start + n <= |used| && forall i: nat | start <= i < start + n :: !used[i]
  }

  /** The least start at or after s of a free run of n blocks, -1 when there is none. */
  ghost function FirstFitFrom(used: seq<bool>, n: nat, s: nat): int
    decreases |used| + 1 - s
  {
    if s + n > |used| then -1
    else if FreeRun(used, s, n) then s
    else FirstFitFrom(used, n, s + 1)
  }

  /** What the scan returns: a request for no blocks never fits, because the
      counter is compared only after it has been increased. */
  ghost function FirstFit(used: seq<bool>, n: nat): int
  {
    if n == 0 then -1 else FirstFitFrom(used, n, 0)
  }

  function CountUsed(used: seq<bool>): (c: nat)
    ensures c <= |used|
  {
    if used == [] then 0
    else CountUsed(used[..|used| - 1]) + if used[|used| - 1] then 1 else 0
  }

  /** The number of maximal runs of free blocks. */
  function FreeRuns(used: seq<bool>): nat {
    if used == [] then 0
    else
      var last := |used| - 1;
      FreeRuns(used[..last]) + if !used[last] && (last == 0 || used[last - 1]) then 1 else 0
  }

  /** The fragmentation figure for r free runs. */
  function Percent(r: nat): nat {
    if r <= 1 then 0 else (r - 1) * 100 / r
  }

  lemma CountStep(used: seq<bool>, i: nat)
    requires i < |used|
    ensures CountUsed(used[..i + 1]) == CountUsed(used[..i]) + if used[i] then 1 else 0
  {
    assert used[..i + 1][..i] == used[..i];
  }

  /** There is a free run exactly when there is a free block. */
  lemma {:induction false} RunsPositive(used: seq<bool>)
    ensures FreeRuns(used) <= |used| - CountUsed(used)
    ensures FreeRuns(used) == 0 <==> CountUsed(used) == |used|
    ensures used != [] && !used[|used| - 1] ==> FreeRuns(used) > 0
  {
    if used != [] {
      RunsPositive(used[..|used| - 1]);
    }
  }

  lemma RunsStep(used: seq<bool>, i: nat)
    requires i < |used|
    ensures FreeRuns(used[..i + 1])
         == FreeRuns(used[..i]) + if !used[i] && (i == 0 || used[i - 1]) then 1 else 0
  {
    assert used[..i + 1][..i] == used[..i];
  }

  // ---- the operations

  method TestBit(bmap: array<bv8>, bit: nat) returns (r: int)
    requires bit < 8 * bmap.Length
    ensures r == if Bit(bmap[..], bit) then 1 else 0
  {
    r := ((bmap[bit / 8] >> (bit % 8)) & 1) as int;
  }

  /** Where the scan stands before block i: `count` free blocks end there, the
      block before them is in use, and no run of n blocks ends by then. */
  ghost predicate Scanned(used: seq<bool>, n: nat, i: nat, count: nat)
    requires i <= |used|
  {
    && count <= i
    && (n > 0 ==> count < n)
    && FreeRun(used, i - count, count)
    && (count < i ==> used[i - count - 1])
    && forall s: nat | n > 0 && s + n <= i :: !FreeRun(used, s, n)
  }

  lemma ScanFree(used: seq<bool>, n: nat, i: nat, count: nat)
    requires i < |used| && Scanned(used, n, i, count) && !used[i]
    ensures count + 1 == n ==> FirstFit(used, n) == i - count
    ensures count + 1 != n ==> Scanned(used, n, i + 1, count + 1)
  {
    if count + 1 == n {
      FirstFitIsLeast(used, n, i - count);
    } else if 0 < n <= i + 1 {
      assert !FreeRun(used, i + 1 - n, n);
    }
  }

  lemma ScanUsed(used: seq<bool>, n: nat, i: nat, count: nat)
    requires i < |used| && Scanned(used, n, i, count) && used[i]
    ensures Scanned(used, n, i + 1, 0)
  {
    forall s: nat | n > 0 && s + n <= i + 1
      ensures !FreeRun(used, s, n)
    {
      assert s + n <= i || s <= i < s + n;
    }
  }

  method FindFreeRegion(bmap: array<bv8>, totalBits: nat, numBlocks: nat) returns (r: int)
    requires totalBits <= 8 * bmap.Length
    ensures r == FirstFit(Used(bmap[..], totalBits), numBlocks)
  {
    ghost var used := Used(bmap[..], totalBits);
    var count: nat := 0;
    var start: nat := 0;
    for i := 0 to totalBits
      invariant count > 0 ==> start == i - count
      invariant Scanned(used, numBlocks, i, count)
    {
      var bit := TestBit(bmap, i);
      if bit == 0 {
        if count == 0 {
          start := i;
        }
        ScanFree(used, numBlocks, i, count);
        count := count + 1;
        if count == numBlocks {
          return start;
        }
      } else {
        ScanUsed(used, numBlocks, i, count);
        count := 0;
      }
    }
    FirstFitExact(used, numBlocks);
    return -1;
  }

  method SetRegion(bmap: array<bv8>, start: nat, numBlocks: nat)
    requires start + numBlocks <= 8 * bmap.Length
    modifies bmap
    ensures Used(bmap[..], 8 * bmap.Length)
         == Fill(Used(old(bmap[..]), 8 * bmap.Length), start, numBlocks, true)
  {
    for i := start to start + numBlocks
      invariant forall j: nat | j < 8 * bmap.Length ::
          Bit(bmap[..], j) == (start <= j < i || Bit(old(bmap[..]), j))
    {
      ghost var before := bmap[..];
      bmap[i / 8] := bmap[i / 8] | Mask(i % 8);
      assert bmap[..] == BitSet(before, i);
    }
  }

  method ClearRegion(bmap: array<bv8>, start: nat, numBlocks: nat)
    requires start + numBlocks <= 8 * bmap.Length
    modifies bmap
    ensures Used(bmap[..], 8 * bmap.Length)
         == Fill(Used(old(bmap[..]), 8 * bmap.Length), start, numBlocks, false)
  {
    for i := start to start + numBlocks
      invariant forall j: nat | j < 8 * bmap.Length ::
          Bit(bmap[..], j) == (!(start <= j < i) && Bit(old(bmap[..]), j))
    {
      ghost var before := bmap[..];
      bmap[i / 8] := bmap[i / 8] & !Mask(i % 8);
      assert bmap[..] == BitCleared(before, i);
    }
  }

  method CountSet(bmap: array<bv8>, totalBits: nat) returns (count: nat)
    requires totalBits <= 8 * bmap.Length
    ensures count == CountUsed(Used(bmap[..], totalBits))
  {
    ghost var used := Used(bmap[..], totalBits);
    count := 0;
    for i := 0 to totalBits
      invariant count == CountUsed(used[..i])
    {
      CountStep(used, i);
      var bit := TestBit(bmap, i);
      if bit != 0 {
        count := count + 1;
      }
    }
    assert used[..totalBits] == used;
  }

  method FragmentationPercent(bmap: array<bv8>, totalBits: nat) returns (percent: nat)
    requires totalBits <= 8 * bmap.Length
    ensures percent == Percent(FreeRuns(Used(bmap[..], totalBits)))
  {
    ghost var used := Used(bmap[..], totalBits);
    var freeRegions: nat := 0;
    var freeBlocks: nat := 0;
    var inFree := false;
    for i := 0 to totalBits
      invariant freeRegions == FreeRuns(used[..i])
      invariant freeBlocks >= freeRegions
      invariant inFree <==> i > 0 && !used[i - 1]
    {
      RunsStep(used, i);
      var bit := TestBit(bmap, i);
      if bit == 0 {
        freeBlocks := freeBlocks + 1;
        if !inFree {
          freeRegions := freeRegions + 1;
          inFree := true;
        }
      } else {
        inFree := false;
      }
    }
    assert used[..totalBits] == used;
    if freeBlocks == 0 || freeRegions <= 1 {
      return 0;
    }
    return Percent(freeRegions);
  }

  // ---- what first fit means

  lemma {:induction false} LeastFrom(used: seq<bool>, n: nat, s: nat, start: nat)
    requires s <= start
    requires FreeRun(used, start, n)
    requires forall t: nat | s <= t < start :: !FreeRun(used, t, n)
    ensures FirstFitFrom(used, n, s) == start
    decreases start - s
  {
    if s < start {
      LeastFrom(used, n, s + 1, start);
    }
  }

  lemma FirstFitIsLeast(used: seq<bool>, n: nat, start: nat)
    requires n > 0 && FreeRun(used, start, n)
    requires forall t: nat | t < start :: !FreeRun(used, t, n)
    ensures FirstFit(used, n) == start
  {
    LeastFrom(used, n, 0, start);
  }

  lemma {:induction false} FitFromIsRun(used: seq<bool>, n: nat, s: nat)
    ensures var r := FirstFitFrom(used, n, s);
      && (r == -1 ==> forall t: nat | s <= t :: !FreeRun(used, t, n))
      && (r != -1 ==> s <= r && FreeRun(used, r, n) && forall t: nat | s <= t < r :: !FreeRun(used, t, n))
    decreases |used| + 1 - s
  {
    if s + n <= |used| && !FreeRun(used, s, n) {
      FitFromIsRun(used, n, s + 1);
    }
  }

  /** Exact leftmost first fit: a non-negative result is the least start of a
      free run of n blocks, and -1 means that there is no such run or n is 0. */
  lemma FirstFitExact(used: seq<bool>, n: nat)
    ensures var r := FirstFit(used, n);
      && (r == -1 <==> n == 0 || forall s: nat :: !FreeRun(used, s, n))
      && (r != -1 ==> n > 0 && 0 <= r && FreeRun(used, r, n) && forall s: nat | s < r :: !FreeRun(used, s, n))
  {
    FitFromIsRun(used, n, 0);
  }
}

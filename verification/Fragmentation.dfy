/**
 What the free-run count and the fragmentation figure computed from it say
 about the requests the scan can satisfy.
 */
module Fragmentation {
  import opened Bitmap

  function FreeBlocks(used: seq<bool>): nat {
    |used| - CountUsed(used)
  }

  // ---- counts as cardinalities

  ghost function FreeSet(used: seq<bool>): set<nat> {
    set i: nat | i < |used| && !used[i]
  }

  ghost predicate StartsRun(used: seq<bool>, i: nat) {
    i < |used| && !used[i] && (i == 0 || used[i - 1])
  }

  ghost function RunStarts(used: seq<bool>): set<nat> {
    set i: nat | i < |used| && StartsRun(used, i)
  }

  lemma {:induction false} FreeBlocksIsCard(used: seq<bool>)
    ensures FreeBlocks(used) == |FreeSet(used)|
  {
    if used != [] {
      var last := |used| - 1;
      FreeBlocksIsCard(used[..last]);
      assert FreeSet(used) == FreeSet(used[..last]) + if used[last] then {} else {last};
    }
  }

  lemma {:induction false} FreeRunsIsCard(used: seq<bool>)
    ensures FreeRuns(used) == |RunStarts(used)|
  {
    if used != [] {
      var last := |used| - 1;
      FreeRunsIsCard(used[..last]);
      assert forall i: nat | i < last :: StartsRun(used[..last], i) == StartsRun(used, i);
      assert RunStarts(used) == RunStarts(used[..last]) + if StartsRun(used, last) then {last} else {};
    }
  }

  ghost function Range(s: nat, n: nat): (r: set<nat>)
    ensures |r| == n
    ensures forall i: nat :: i in r <==> s <= i < s + n
  {
    if n == 0 then {} else Range(s, n - 1) + {s + n - 1}
  }

  lemma SubsetCard(a: set<nat>, b: set<nat>)
    requires a <= b
    ensures |a| <= |b|
  {
    assert b == a + (b - a);
  }

  // ---- the pigeonhole bound

  /** The length of the run of free blocks that ends the bitmap. */
  function Trailing(used: seq<bool>): (t: nat)
    ensures t <= |used|
  {
    if used == [] || used[|used| - 1] then 0 else Trailing(used[..|used| - 1]) + 1
  }

  lemma {:induction false} TrailingIsRun(used: seq<bool>)
    ensures FreeRun(used, |used| - Trailing(used), Trailing(used))
    ensures Trailing(used) > 0 <==> used != [] && !used[|used| - 1]
  {
    if used != [] && !used[|used| - 1] {
      TrailingIsRun(used[..|used| - 1]);
    }
  }

  /** Runs of at most d blocks each hold no more than r * d, of which the last
      one, of which t blocks have been seen, holds t. */
  predicate RunsHold(free: nat, r: nat, t: nat, d: nat) {
    && t <= d && free <= r * d
    && (t > 0 ==> r > 0 && free <= (r - 1) * d + t)
  }

  lemma RunsHoldStep(free: nat, r: nat, t: nat, d: nat)
    requires RunsHold(free, r, t, d)
    ensures RunsHold(free, r, 0, d)
    ensures t < d ==> RunsHold(free + 1, if t == 0 then r + 1 else r, t + 1, d)
  {
    assert (r + 1) * d == r * d + d;
    if t > 0 {
      assert r * d == (r - 1) * d + d;
    }
  }

  /** The counts of a bitmap from those of the bitmap without its last block. */
  lemma LastBlock(used: seq<bool>)
    requires used != []
    ensures var p, last := used[..|used| - 1], used[|used| - 1];
      && FreeBlocks(used) == FreeBlocks(p) + (if last then 0 else 1)
      && FreeRuns(used) == FreeRuns(p) + (if !last && Trailing(p) == 0 then 1 else 0)
      && Trailing(used) == if last then 0 else Trailing(p) + 1
  {
    TrailingIsRun(used[..|used| - 1]);
  }

  lemma NoLongerTrailing(used: seq<bool>, n: nat)
    requires n > 0 && forall s: nat :: !FreeRun(used, s, n)
    ensures Trailing(used) < n
  {
    TrailingIsRun(used);
    if Trailing(used) >= n {
      assert FreeRun(used, |used| - n, n);
    }
  }

  lemma {:induction false} PigeonholeStep(used: seq<bool>, n: nat)
    requires n > 0 && forall s: nat :: !FreeRun(used, s, n)
    ensures RunsHold(FreeBlocks(used), FreeRuns(used), Trailing(used), n - 1)
  {
    NoLongerTrailing(used, n);
    if used != [] {
      var p := used[..|used| - 1];
      forall s: nat
        ensures !FreeRun(p, s, n)
      {
        assert !FreeRun(used, s, n);
      }
      PigeonholeStep(p, n);
      LastBlock(used);
      RunsHoldStep(FreeBlocks(p), FreeRuns(p), Trailing(p), n - 1);
    }
  }

  /** When no n consecutive blocks are free, r free runs hold at most r * (n - 1) blocks. */
  lemma Pigeonhole(used: seq<bool>, n: nat)
    requires n > 0 && forall s: nat :: !FreeRun(used, s, n)
    ensures FreeBlocks(used) <= FreeRuns(used) * (n - 1)
  {
    PigeonholeStep(used, n);
  }

  // ---- the fragmentation figure

  lemma Cancel(a: int, b: int, r: nat)
    requires a * r < b * r
    ensures a < b
  {
  }

  lemma PercentFloor(r: nat)
    requires r >= 2
    ensures Percent(r) * r <= r * 100 - 100 < (Percent(r) + 1) * r
  {
    var x := (r - 1) * 100;
    assert x == r * (x / r) + x % r && 0 <= x % r < r;
  }

  lemma PercentRange(r: nat)
    requires r >= 2
    ensures 50 <= Percent(r) <= 99
    ensures Percent(r) == 99 <==> r >= 100
  {
    PercentFloor(r);
    Cancel(50, Percent(r) + 1, r);
    Cancel(Percent(r), 100, r);
    if r >= 100 {
      Cancel(99, Percent(r) + 1, r);
    } else {
      Cancel(Percent(r), 99, r);
    }
  }

  lemma MulMono(a: nat, r: nat, r': nat)
    requires r <= r'
    ensures a * r <= a * r'
  {
  }

  lemma PercentMonotone(r: nat, r': nat)
    requires 2 <= r <= r'
    ensures Percent(r) <= Percent(r')
  {
    PercentFloor(r);
    PercentFloor(r');
    PercentRange(r);
    var p, q := Percent(r), Percent(r');
    MulMono(100 - p, r, r');
    assert (100 - p) * r == 100 * r - p * r && (100 - p) * r' == 100 * r' - p * r';
    assert p * r' < (q + 1) * r';
    Cancel(p, q + 1, r');
  }

  /** The figure is 0 for at most one run, lies in 50..99 otherwise, saturates
      at 99 from 100 runs on, and never falls when the number of runs grows. */
  lemma PercentMeaning(r: nat, r': nat)
    ensures Percent(r) == 0 <==> r <= 1
    ensures Percent(r) != 0 ==> 50 <= Percent(r) <= 99
    ensures Percent(r) == 99 <==> r >= 100
    ensures r <= r' ==> Percent(r) <= Percent(r')
  {
    if r >= 2 {
      PercentRange(r);
      if r <= r' {
        PercentMonotone(r, r');
      }
    }
  }

  lemma {:induction false} OneRunCount(used: seq<bool>, s: nat, n: nat, i: nat)
    requires FreeRun(used, s, n) && i <= |used|
    requires forall k: nat | k < |used| && !used[k] :: s <= k < s + n
    ensures FreeRuns(used[..i]) <= if i <= s then 0 else 1
  {
    if i > 0 {
      OneRunCount(used, s, n, i - 1);
      RunsStep(used, i - 1);
    }
  }

  lemma AllFreeInOneRun(used: seq<bool>, s: nat)
    requires FreeRun(used, s, FreeBlocks(used))
    ensures FreeRuns(used) <= 1
  {
    var n := FreeBlocks(used);
    var run := Range(s, n);
    forall k: nat | k < |used| && !used[k]
      ensures s <= k < s + n
    {
      if !(s <= k < s + n) {
        assert run + {k} <= FreeSet(used);
        SubsetCard(run + {k}, FreeSet(used));
        FreeBlocksIsCard(used);
      }
    }
    OneRunCount(used, s, n, |used|);
    assert used[..|used|] == used;
  }

  ghost predicate Fits(used: seq<bool>, n: nat) {
    exists s: nat :: FreeRun(used, s, n)
  }

  /** Zero fragmentation means exactly that every request for no more than the
      free blocks there are has a run to go to. */
  lemma ZeroFragmentation(used: seq<bool>)
    ensures Percent(FreeRuns(used)) == 0
       <==> forall n: nat | 1 <= n <= FreeBlocks(used) :: Fits(used, n)
  {
    PercentMeaning(FreeRuns(used), 0);
    RunsPositive(used);
    var f := FreeBlocks(used);
    if FreeRuns(used) <= 1 {
      forall n: nat | 1 <= n <= f
        ensures Fits(used, n)
      {
        if !Fits(used, n) {
          Pigeonhole(used, n);
        }
      }
    } else if Fits(used, f) {
      var s: nat :| FreeRun(used, s, f);
      AllFreeInOneRun(used, s);
    }
  }
}

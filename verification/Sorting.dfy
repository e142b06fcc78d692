/**
 Sorting an array of items by a C comparator, and searching a sorted one.  The
 kernel's sort() and bsearch() are not part of the repository: callers rely
 only on the contracts given here, which say nothing about the order of items
 that compare equal.
 */
module Sorting {

  /** No item of s[..i] ranks above an item that comes after it. */
  predicate SortedUpTo<T>(s: seq<T>, rank: T -> int, i: nat) {
    forall p: nat, q: nat | p < i && p < q < |s| :: rank(s[p]) <= rank(s[q])
  }

  predicate Sorted<T>(s: seq<T>, rank: T -> int) {
    SortedUpTo(s, rank, |s|)
  }

  /** The index of an item of the least rank among a[i..num]. */
  method LeastFrom<T>(a: array<T>, i: nat, num: nat, cmp: (T, T) ~> int, ghost rank: T -> int) returns (m: nat)
    requires i < num <= a.Length
    requires forall x, y | x in a[..num] && y in a[..num] :: cmp.requires(x, y)
    requires forall x, y | x in a[..num] && y in a[..num] :: cmp(x, y) <= 0 <==> rank(x) <= rank(y)
    ensures i <= m < num
    ensures forall q: nat | i <= q < num :: rank(a[m]) <= rank(a[q])
  {
    m := i;
    for j := i + 1 to num
      invariant i <= m < num
      invariant forall q: nat | i <= q < j :: rank(a[m]) <= rank(a[q])
    {
      if cmp(a[m], a[j]) > 0 {
        m := j;
      }
    }
  }

  function Swapped<T>(s: seq<T>, i: nat, m: nat): seq<T>
    requires i < |s| && m < |s|
  {
    s[i := s[m]][m := s[i]]
  }

  lemma SwapStep<T>(s: seq<T>, rank: T -> int, i: nat, m: nat)
    requires i <= m < |s| && SortedUpTo(s, rank, i)
    requires forall q: nat | i <= q < |s| :: rank(s[m]) <= rank(s[q])
    ensures SortedUpTo(Swapped(s, i, m), rank, i + 1)
    ensures multiset(Swapped(s, i, m)) == multiset(s)
  {
  }

  /** Sort the first `num` items in place.  The comparator may read the items
      but not the array; it orders them by some rank. */
  method Sort<T>(a: array<T>, num: nat, cmp: (T, T) ~> int, ghost rank: T -> int)
    requires num <= a.Length
    requires forall x, y | x in a[..num] && y in a[..num] :: cmp.requires(x, y)
    requires forall x, y | x in a[..num] && y in a[..num] :: a !in cmp.reads(x, y)
    requires forall x, y | x in a[..num] && y in a[..num] :: cmp(x, y) <= 0 <==> rank(x) <= rank(y)
    modifies a
    ensures multiset(a[..num]) == multiset(old(a[..num]))
    ensures Sorted(a[..num], rank)
  {
    ghost var s := a[..num];
    for i := 0 to num
      invariant multiset(a[..num]) == multiset(s)
      invariant SortedUpTo(a[..num], rank, i)
    {
      forall x | x in a[..num]
        ensures x in s
      {
        assert x in multiset(a[..num]);
      }
      var m := LeastFrom(a, i, num, cmp, rank);
      SwapStep(a[..num], rank, i, m);
      ghost var before := a[..num];
      a[i], a[m] := a[m], a[i];
      assert a[..num] == Swapped(before, i, m);
    }
  }

  /** Binary search by the kernel's scheme: -1 when no item compares equal to the key. */
  method BinarySearch<T>(key: int, a: array<T>, cmp: (int, T) -> int, ghost rank: T -> int) returns (r: int)
    requires Sorted(a[..], rank)
    requires forall x | x in a[..] ::
               (cmp(key, x) < 0 <==> key < rank(x)) && (cmp(key, x) > 0 <==> key > rank(x))
    ensures r == -1 || 0 <= r < a.Length
    ensures r >= 0 ==> rank(a[r]) == key
    ensures r == -1 ==> forall x | x in a[..] :: rank(x) != key
  {
    var base, num: nat := 0, a.Length;
    while num > 0
      invariant base + num <= a.Length
      invariant forall q: nat | q < base :: rank(a[..][q]) < key
      invariant forall q: nat | base + num <= q < a.Length :: key < rank(a[..][q])
    {
      var pivot := base + num / 2;
      assert a[pivot] in a[..];
      var result := cmp(key, a[pivot]);
      if result == 0 {
        return pivot;
      }
      if result > 0 {
        base := pivot + 1;
        num := num - 1;
      }
      num := num / 2;
    }
    return -1;
  }
}

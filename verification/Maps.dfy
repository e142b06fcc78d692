/** A function applied to every item of a sequence. */
module Maps {

  function Map<A, B>(f: A -> B, s: seq<A>): (r: seq<B>)
    ensures |r| == |s|
    ensures forall i: nat | i < |s| :: r[i] == f(s[i])
  {
    seq(|s|, i requires 0 <= i < |s| => f(s[i]))
  }

  lemma MapAppend<A, B>(f: A -> B, s: seq<A>, t: seq<A>)
    ensures Map(f, s + t) == Map(f, s) + Map(f, t)
  {
  }

  lemma MapPrefix<A, B>(f: A -> B, s: seq<A>, m: nat)
    requires m <= |s|
    ensures Map(f, s)[..m] == Map(f, s[..m])
  {
  }

  lemma Remove<T>(s: seq<T>, x: T) returns (i: nat)
    requires x in multiset(s)
    ensures i < |s| && s[i] == x
    ensures multiset(s[..i] + s[i + 1..]) == multiset(s) - multiset{x}
  {
    i :| i < |s| && s[i] == x;
    assert s == s[..i] + [x] + s[i + 1..];
  }

  lemma MapWithout<A, B>(f: A -> B, s: seq<A>, k: nat)
    requires k < |s|
    ensures multiset(Map(f, s)) == multiset(Map(f, s[..k] + s[k + 1..])) + multiset{f(s[k])}
  {
    var m := Map(f, s);
    assert m == m[..k] + [m[k]] + m[k + 1..];
    assert Map(f, s[..k] + s[k + 1..]) == m[..k] + m[k + 1..];
  }

  /** What is read off the items of a permutation is a permutation. */
  lemma {:induction false} PermutedMap<A, B>(f: A -> B, s: seq<A>, t: seq<A>)
    requires multiset(s) == multiset(t)
    ensures multiset(Map(f, s)) == multiset(Map(f, t))
    decreases |s|
  {
    if s == [] {
      assert |multiset(t)| == |t|;
    } else {
      assert s[0] in multiset(s);
      var k := Remove(t, s[0]);
      assert s == [s[0]] + s[1..] && s[..0] + s[0 + 1..] == s[1..];
      PermutedMap(f, s[1..], t[..k] + t[k + 1..]);
      MapWithout(f, s, 0);
      MapWithout(f, t, k);
    }
  }

  predicate NoDuplicates<T(==)>(s: seq<T>) {
    forall i: nat, j: nat | i < j < |s| :: s[i] != s[j]
  }

  lemma {:induction false} NoDuplicatesCount<T>(s: seq<T>)
    ensures NoDuplicates(s) <==> forall x | x in s :: multiset(s)[x] == 1
    decreases |s|
  {
    if s != [] {
      var last := |s| - 1;
      var a, z := s[..last], s[last];
      assert s == a + [z];
      NoDuplicatesCount(a);
      if NoDuplicates(s) {
        assert z !in a;
        assert NoDuplicates(a);
      } else if forall x | x in s :: multiset(s)[x] == 1 {
        assert multiset(s)[z] == 1;
        assert z !in a;
        forall x | x in a
          ensures multiset(a)[x] == 1
        {
          assert x in s;
        }
      }
    }
  }

  lemma PermutedNoDuplicates<T>(s: seq<T>, t: seq<T>)
    requires multiset(s) == multiset(t) && NoDuplicates(s)
    ensures NoDuplicates(t)
  {
    NoDuplicatesCount(s);
    NoDuplicatesCount(t);
    forall x | x in t
      ensures multiset(t)[x] == 1
    {
      assert x in multiset(s);
    }
  }

  /** Without duplicates, there are as many different items as positions. */
  lemma {:induction false} NoDuplicatesCard<T>(s: seq<T>)
    requires NoDuplicates(s)
    ensures |set x | x in s| == |s|
  {
    if s != [] {
      var last := |s| - 1;
      NoDuplicatesCard(s[..last]);
      assert (set x | x in s) == (set x | x in s[..last]) + {s[last]};
    }
  }
}

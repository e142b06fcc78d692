/**
 Which rows the top-addresses report shows: a choice of the collected rows
 under the module's own 64-bit totals.
 */
module TopTraffic {
  import opened Text
  import opened ReportText
  import opened TrafficTable
  import opened Maps

  const MAX_TOP_ADDRS: nat := 100

  /** The sum of both directions, in 64-bit arithmetic. */
  function TotalBytes(row: Row): Word {
    AddWord(row.recv, row.send)
  }

  /** The rows in the order hash_for_each visits them. */
  function Flatten(t: seq<seq<Row>>): seq<Row> {
    if t == [] then [] else Flatten(t[..|t| - 1]) + t[|t| - 1]
  }

  function Take(rows: seq<Row>, n: nat): (r: seq<Row>)
    ensures r <= rows
  {
    if |rows| <= n then rows else rows[..n]
  }

  /** The rows the report chooses from: at most the first hundred visited. */
  function Collected(t: Table): seq<Row> {
    Take(Flatten(t), MAX_TOP_ADDRS)
  }

  /** How many rows are in the first b buckets. */
  function RowsBefore(t: seq<seq<Row>>, b: nat): nat
    requires b <= |t|
  {
    if b == 0 then 0 else RowsBefore(t, b - 1) + |t[b - 1]|
  }

  lemma {:induction false} VisitOrder(t: seq<seq<Row>>, b: nat, i: nat)
    requires b < |t| && i < |t[b]|
    ensures |Flatten(t)| == RowsBefore(t, |t|)
    ensures RowsBefore(t, b) + i < |Flatten(t)| && Flatten(t)[RowsBefore(t, b) + i] == t[b][i]
  {
    var last := |t| - 1;
    FlattenLength(t);
    FlattenLength(t[..last]);
    SameRowsBefore(t, last, last);
    if b < last {
      VisitOrder(t[..last], b, i);
      SameRowsBefore(t, last, b);
    }
  }

  lemma {:induction false} FlattenLength(t: seq<seq<Row>>)
    ensures |Flatten(t)| == RowsBefore(t, |t|)
  {
    if t != [] {
      FlattenLength(t[..|t| - 1]);
      SameRowsBefore(t, |t| - 1, |t| - 1);
    }
  }

  lemma {:induction false} SameRowsBefore(t: seq<seq<Row>>, k: nat, b: nat)
    requires b <= k <= |t|
    ensures RowsBefore(t[..k], b) == RowsBefore(t, b)
  {
    if b > 0 {
      SameRowsBefore(t, k, b - 1);
    }
  }

  /** The rows collected are the first hundred, bucket by bucket from the lowest
      on and each chain from its head. */
  lemma CollectedOrder(t: Table, b: nat, i: nat)
    requires b < BUCKETS && i < |t[b]|
    ensures var p := RowsBefore(t, b) + i;
      if p < MAX_TOP_ADDRS then p < |Collected(t)| && Collected(t)[p] == t[b][i]
      else |Collected(t)| == MAX_TOP_ADDRS
  {
    VisitOrder(t, b, i);
  }

  predicate Descending(rows: seq<Row>) {
    forall i: nat, j: nat | i < j < |rows| :: TotalBytes(rows[i]) >= TotalBytes(rows[j])
  }

  ghost predicate Ranking(ranked: seq<Row>, rows: seq<Row>) {
    Descending(ranked) && multiset(ranked) == multiset(rows)
  }

  /** `top` is the first n rows of some descending arrangement of `rows`. */
  ghost predicate IsTop(top: seq<Row>, rows: seq<Row>, n: int) {
    exists ranked :: Ranking(ranked, rows) && top == Take(ranked, if n < 0 then 0 else n)
  }

  /** What that means without the arrangement: as many rows as asked for or
      there are, in descending order, and none left out has a larger total. */
  lemma TopMeaning(top: seq<Row>, rows: seq<Row>, n: nat)
    requires IsTop(top, rows, n)
    ensures |top| == if n < |rows| then n else |rows|
    ensures Descending(top)
    ensures multiset(top) <= multiset(rows)
    ensures forall kept, left | kept in top && left in multiset(rows) - multiset(top) ::
              TotalBytes(left) <= TotalBytes(kept)
  {
    var ranked :| Ranking(ranked, rows) && top == Take(ranked, n);
    var k := |top|;
    SplitRanking(ranked, k);
    assert |multiset(ranked)| == |ranked| && |multiset(rows)| == |rows|;
    assert top == ranked[..k];
    PrefixDescending(ranked, k);
    forall kept, left | kept in top && left in multiset(rows) - multiset(top)
      ensures TotalBytes(left) <= TotalBytes(kept)
    {
      AcrossSplit(ranked, k, kept, left);
    }
  }

  lemma PrefixDescending(ranked: seq<Row>, k: nat)
    requires k <= |ranked| && Descending(ranked)
    ensures Descending(ranked[..k])
  {
  }

  lemma AcrossSplit(ranked: seq<Row>, k: nat, kept: Row, left: Row)
    requires k <= |ranked| && Descending(ranked)
    requires kept in ranked[..k] && left in multiset(ranked[k..])
    ensures TotalBytes(left) <= TotalBytes(kept)
  {
    var i: nat :| i < k && ranked[..k][i] == kept;
    var j := IndexFrom(ranked, k, left);
    assert TotalBytes(ranked[i]) >= TotalBytes(ranked[j]);
  }

  lemma SplitRanking(ranked: seq<Row>, k: nat)
    requires k <= |ranked|
    ensures multiset(ranked[..k]) <= multiset(ranked)
    ensures multiset(ranked) - multiset(ranked[..k]) == multiset(ranked[k..])
  {
    assert ranked == ranked[..k] + ranked[k..];
  }

  lemma IndexFrom(ranked: seq<Row>, k: nat, row: Row) returns (j: nat)
    requires k <= |ranked| && row in multiset(ranked[k..])
    ensures k <= j < |ranked| && ranked[j] == row
  {
    assert row in ranked[k..];
    var i: nat :| i < |ranked[k..]| && ranked[k..][i] == row;
    j := k + i;
  }

  lemma KeptNotLess(top: seq<Row>, rows: seq<Row>, n: nat, kept: Row, left: Row)
    requires IsTop(top, rows, n) && kept in top && left in rows && left !in top
    ensures kept in rows && TotalBytes(left) <= TotalBytes(kept)
  {
    TopMeaning(top, rows, n);
    assert kept in multiset(top) && kept in multiset(rows);
    assert left in multiset(rows) - multiset(top);
  }

  lemma LargestShown(top: seq<Row>, rows: seq<Row>, n: nat, row: Row)
    requires IsTop(top, rows, n) && n > 0 && row in rows
    ensures top != [] && top[0] in rows && TotalBytes(row) <= TotalBytes(top[0])
  {
    TopMeaning(top, rows, n);
    assert top[0] in multiset(top) && top[0] in multiset(rows);
    if row in top {
      var i: nat :| i < |top| && top[i] == row;
    } else {
      KeptNotLess(top, rows, n, top[0], row);
    }
  }

  /** Every choice of rows has a descending arrangement. */
  lemma {:induction false} RankingExists(rows: seq<Row>) returns (ranked: seq<Row>)
    ensures Ranking(ranked, rows)
  {
    if rows == [] {
      ranked := [];
    } else {
      var last := |rows| - 1;
      var before := RankingExists(rows[..last]);
      ranked := Inserted(before, rows[last]);
      assert rows == rows[..last] + [rows[last]];
    }
  }

  lemma {:induction false} Inserted(ranked: seq<Row>, row: Row) returns (r: seq<Row>)
    requires Descending(ranked)
    ensures Descending(r) && multiset(r) == multiset(ranked) + multiset{row}
  {
    if ranked == [] || TotalBytes(row) >= TotalBytes(ranked[0]) {
      r := [row] + ranked;
    } else {
      var rest := Inserted(ranked[1..], row);
      LargestFirst(ranked[0], ranked[1..], row, rest);
      assert ranked == [ranked[0]] + ranked[1..];
      r := [ranked[0]] + rest;
    }
  }

  lemma LargestFirst(first: Row, others: seq<Row>, row: Row, rest: seq<Row>)
    requires Descending(rest) && multiset(rest) == multiset(others) + multiset{row}
    requires TotalBytes(row) <= TotalBytes(first)
    requires forall j: nat | j < |others| :: TotalBytes(others[j]) <= TotalBytes(first)
    ensures Descending([first] + rest)
  {
    forall j: nat | j < |rest|
      ensures TotalBytes(rest[j]) <= TotalBytes(first)
    {
      assert rest[j] in multiset(rest);
      assert rest[j] == row || rest[j] in others;
    }
  }

  // ---- the rows shown and the table they come from

  /** Keys differ within a table, along its chains and across them. */
  lemma {:induction false} TableKeysDistinct(t: seq<seq<Row>>, hash: Hash)
    requires forall b: nat | b < |t| :: Hashed(t[b], hash, b) && DistinctKeys(t[b])
    ensures DistinctKeys(Flatten(t))
    ensures forall row | row in Flatten(t) :: exists b: nat :: b < |t| && row in t[b]
  {
    if t != [] {
      var last := |t| - 1;
      TableKeysDistinct(t[..last], hash);
      forall row | row in Flatten(t[..last])
        ensures hash(KeyOf(row)) < last
      {
        var b: nat :| b < last && row in t[..last][b];
        assert Hashed(t[b], hash, b);
      }
      var a, z := Flatten(t[..last]), t[last];
      assert Hashed(z, hash, last);
      forall i: nat, j: nat | i < j < |a + z|
        ensures KeyOf((a + z)[i]) != KeyOf((a + z)[j])
      {
        if i < |a| <= j {
          assert (a + z)[i] in a && (a + z)[j] == z[j - |a|];
        } else if j < |a| {
          assert KeyOf(a[i]) != KeyOf(a[j]);
        } else {
          assert KeyOf(z[i - |a|]) != KeyOf(z[j - |a|]);
        }
      }
    }
  }

  lemma RankedKeys(ranked: seq<Row>, rows: seq<Row>)
    requires multiset(ranked) == multiset(rows) && DistinctKeys(rows)
    ensures DistinctKeys(ranked)
  {
    var keys, ranks := Map(KeyOf, rows), Map(KeyOf, ranked);
    PermutedMap(KeyOf, rows, ranked);
    assert NoDuplicates(keys);
    PermutedNoDuplicates(keys, ranks);
    forall i: nat, j: nat | i < j < |ranked|
      ensures KeyOf(ranked[i]) != KeyOf(ranked[j])
    {
      assert ranks[i] != ranks[j];
    }
  }

  lemma {:induction false} Visited(t: seq<seq<Row>>, b: nat, row: Row)
    requires b < |t| && row in t[b]
    ensures row in Flatten(t)
  {
    if b < |t| - 1 {
      Visited(t[..|t| - 1], b, row);
    }
  }

  /** The rows met when visiting a table are exactly those its keys look up. */
  lemma FlattenedLookup(t: Table, hash: Hash, row: Row)
    requires WellKept(t, hash)
    ensures row in Flatten(t) <==> Lookup(t, hash, KeyOf(row)) == Counters(row.recv, row.send)
  {
    if row in Flatten(t) {
      TableKeysDistinct(t, hash);
      var b: nat :| b < |t| && row in t[b];
      var i: nat :| i < |t[b]| && t[b][i] == row;
      RowIsLookup(t, hash, b, i);
    } else if Lookup(t, hash, KeyOf(row)) == Counters(row.recv, row.send) {
      var b := hash(KeyOf(row));
      assert row == t[b][Find(t[b], KeyOf(row))];
      Visited(t, b, row);
    }
  }

  lemma TopKeys(t: Table, hash: Hash, n: int, top: seq<Row>)
    requires WellKept(t, hash) && IsTop(top, Collected(t), n)
    ensures DistinctKeys(top)
    ensures forall row | row in top :: Lookup(t, hash, KeyOf(row)) == Counters(row.recv, row.send)
  {
    TableKeysDistinct(t, hash);
    var rows := Collected(t);
    var ranked :| Ranking(ranked, rows) && top == Take(ranked, if n < 0 then 0 else n);
    RankedKeys(ranked, rows);
    forall row | row in top
      ensures Lookup(t, hash, KeyOf(row)) == Counters(row.recv, row.send)
    {
      assert row in multiset(ranked) && row in rows;
      FlattenedLookup(t, hash, row);
    }
  }
}

/**
 The statistics module itself (final_work_kprobe, stats.c): chains of entries
 whose counters grow in place, and the report printed from them.
 */
module TrafficStats {
  import opened Text
  import opened ReportText
  import opened TrafficTable
  import opened TopTraffic
  import opened Buffer
  import opened Maps
  import Sorting

  class AddrStat {
    const saddr: Ipv4
    const daddr: Ipv4
    var recvBytes: Word
    var sendBytes: Word

    constructor (c: Transfer)
      ensures ToRow() == NewRow(c)
    {
      saddr := c.saddr;
      daddr := c.daddr;
      recvBytes := if c.isSend then 0 else c.bytes;
      sendBytes := if c.isSend then c.bytes else 0;
    }

    function Key(): Key {
      (saddr, daddr)
    }

    function ToRow(): Row
      reads this
    {
      Row(saddr, daddr, recvBytes, sendBytes)
    }
  }

  ghost predicate Within(chains: seq<seq<AddrStat>>, repr: set<AddrStat>) {
    forall b: nat, i: nat | b < |chains| && i < |chains[b]| :: chains[b][i] in repr
  }

  ghost function Rows(chain: seq<AddrStat>, repr: set<AddrStat>): (rows: seq<Row>)
    requires forall i: nat | i < |chain| :: chain[i] in repr
    reads repr
    ensures |rows| == |chain|
    ensures forall i: nat | i < |chain| :: rows[i] == chain[i].ToRow()
  {
    seq(|chain|, i requires 0 <= i < |chain| && chain[i] in repr reads repr => chain[i].ToRow())
  }

  ghost function TableRows(chains: seq<seq<AddrStat>>, repr: set<AddrStat>): (t: seq<seq<Row>>)
    requires Within(chains, repr)
    reads repr
    ensures |t| == |chains|
    ensures forall b: nat | b < |chains| :: t[b] == Rows(chains[b], repr)
  {
    seq(|chains|, b requires 0 <= b < |chains| && Within(chains, repr) reads repr => Rows(chains[b], repr))
  }

  class TrafficStats {
    const hash: Hash
    const buckets: array<seq<AddrStat>>
    ghost var repr: set<AddrStat>

    /** Every entry is in the chain of its key, and keys differ within a chain. */
    ghost predicate Valid()
      reads this, buckets
    {
      && buckets.Length == BUCKETS
      && Within(buckets[..], repr)
      && (forall b: nat, i: nat | b < BUCKETS && i < |buckets[b]| :: hash(buckets[b][i].Key()) == b)
      && (forall b: nat, i: nat, j: nat | b < BUCKETS && i < j < |buckets[b]| ::
            buckets[b][i].Key() != buckets[b][j].Key())
    }

    ghost function Model(): Table
      requires Valid()
      reads this, buckets, repr
    {
      TableRows(buckets[..], repr)
    }

    constructor (hash: Hash)
      ensures Valid() && fresh(buckets) && repr == {} && this.hash == hash
      ensures Model() == TrafficTable.Empty()
    {
      this.hash := hash;
      repr := {};
      buckets := new seq<AddrStat>[BUCKETS](_ => []);
    }

    /** Equal keys mean the same entry. */
    lemma SameEntry(b: nat, i: nat, b': nat, i': nat)
      requires Valid() && b < BUCKETS && i < |buckets[b]| && b' < BUCKETS && i' < |buckets[b']|
      ensures buckets[b][i] == buckets[b'][i'] <==> b == b' && i == i'
    {
    }

    method AddBytes(b: Bucket, i: nat, isSend: bool, bytes: Word)
      requires Valid() && i < |buckets[b]|
      modifies buckets[b][i]
      ensures Valid()
      ensures Model() == old(Model())[b := old(Model())[b][i := Added(old(Model())[b][i], isSend, bytes)]]
    {
      ghost var t := Model();
      var entry := buckets[b][i];
      if isSend {
        entry.sendBytes := AddWord(entry.sendBytes, bytes);
      } else {
        entry.recvBytes := AddWord(entry.recvBytes, bytes);
      }
      ghost var t' := t[b := t[b][i := Added(t[b][i], isSend, bytes)]];
      forall b': nat | b' < BUCKETS
        ensures Rows(buckets[b'], repr) == t'[b']
      {
        forall j: nat | j < |buckets[b']|
          ensures buckets[b'][j].ToRow() == t'[b'][j]
        {
          SameEntry(b, i, b', j);
        }
      }
    }

    method AddEntry(b: Bucket, c: Transfer)
      requires Valid() && b == hash(KeyOfTransfer(c))
      requires forall i: nat | i < |buckets[b]| :: buckets[b][i].Key() != KeyOfTransfer(c)
      modifies this, buckets
      ensures Valid()
      ensures fresh(repr - old(repr))
      ensures Model() == old(Model())[b := [NewRow(c)] + old(Model())[b]]
    {
      ghost var t := Model();
      var entry := new AddrStat(c);
      var chain := buckets[b];
      buckets[b] := [entry] + chain;
      repr := repr + {entry};
      assert forall i: nat | 0 < i < |buckets[b]| :: buckets[b][i] == chain[i - 1];
      assert Valid();
      assert Rows(buckets[b], repr) == [NewRow(c)] + t[b];
      forall b': nat | b' < BUCKETS && b' != b
        ensures Rows(buckets[b'], repr) == t[b']
      {
        assert buckets[b'] == old(buckets[b']);
      }
    }

    method RecordTraffic(c: Transfer)
      requires Valid()
      modifies this, buckets, repr
      ensures Valid()
      ensures fresh(repr - old(repr))
      ensures Model() == RecordStep(old(Model()), hash, c)
    {
      ghost var t := Model();
      var key := (c.saddr, c.daddr);
      var b := hash(key);
      var chain := buckets[b];
      var i: nat := 0;
      while i < |chain|
        invariant i <= |chain|
        invariant forall j: nat | j < i :: chain[j].Key() != key
      {
        if chain[i].saddr == c.saddr && chain[i].daddr == c.daddr {
          FindIs(t[b], key, i);
          AddBytes(b, i, c.isSend, c.bytes);
          return;
        }
        i := i + 1;
      }
      FindIs(t[b], key, |chain|);
      if !c.memory {
        return;
      }
      AddEntry(b, c);
    }

    /** stats_exit: every chain is emptied, entry by entry from its head. */
    method Exit()
      requires Valid()
      modifies buckets
      ensures Valid() && Model() == TrafficTable.Empty()
    {
      for b := 0 to BUCKETS
        invariant Valid()
        invariant forall k: nat | k < b :: buckets[k] == []
      {
        while buckets[b] != []
          invariant Valid()
          invariant forall k: nat | k < b :: buckets[k] == []
          decreases |buckets[b]|
        {
          buckets[b] := buckets[b][1..];
        }
      }
    }

    /** The array's first entries are live ones and these are their rows. */
    ghost predicate Holding(entries: array<AddrStat?>, rows: seq<Row>)
      reads this, entries, repr
    {
      && |rows| <= entries.Length
      && forall i: nat | i < |rows| ::
           entries[i] != null && entries[i] in repr && entries[i].ToRow() == rows[i]
    }

    /** The inner loop of hash_for_each: it stops at an entry it has no room for. */
    method CollectChain(chain: seq<AddrStat>, entries: array<AddrStat?>, start: nat, ghost rows: seq<Row>)
      returns (count: nat, stopped: bool, ghost more: seq<Row>)
      requires forall i: nat | i < |chain| :: chain[i] in repr
      requires entries.Length == MAX_TOP_ADDRS && start == |rows| && Holding(entries, rows)
      modifies entries
      ensures more == Take(rows + Rows(chain, repr), MAX_TOP_ADDRS)
      ensures count == |more| && Holding(entries, more)
      ensures stopped <==> |rows| + |chain| > MAX_TOP_ADDRS
    {
      ghost var chainRows := Rows(chain, repr);
      count, more := start, rows;
      for i := 0 to |chain|
        invariant count == |more| <= MAX_TOP_ADDRS && Holding(entries, more)
        invariant more == rows + chainRows[..i]
      {
        if count >= MAX_TOP_ADDRS {
          stopped := true;
          return;
        }
        AppendOne(rows, chainRows, i);
        entries[count] := chain[i];
        count, more := count + 1, more + [chainRows[i]];
      }
      assert chainRows[..|chain|] == chainRows;
      stopped := false;
    }

    /** The first entries met by hash_for_each, as many as there is room for. */
    method Collect(entries: array<AddrStat?>) returns (count: nat, ghost rows: seq<Row>)
      requires Valid() && entries.Length == MAX_TOP_ADDRS && entries as object != buckets
      modifies entries
      ensures rows == Collected(old(Model()))
      ensures count == |rows| && Holding(entries, rows)
    {
      ghost var t := Model();
      count, rows := 0, [];
      for b := 0 to BUCKETS
        invariant count == |rows| <= MAX_TOP_ADDRS && Holding(entries, rows)
        invariant rows == Flatten(t[..b])
      {
        FlattenStep(t, b);
        assert Rows(buckets[b], repr) == t[b];
        var stopped;
        count, stopped, rows := CollectChain(buckets[b], entries, count, rows);
        if stopped {
          TakePrefix(t, b + 1);
          return;
        }
      }
      assert t[..BUCKETS] == t;
    }

    /** stats_get_top.  `memory` tells whether the array of pointers can be
        allocated.  The rows shown are returned for the contract's sake: when
        nothing is printed the buffer keeps what it had. */
    method GetTop(buf: array<char>, len: nat, topN: int, memory: bool) returns (ghost top: seq<Row>)
      requires Valid() && 0 < len <= buf.Length && buf as object != buckets
      modifies buf
      ensures memory && topN > 0 ==> IsTop(top, Collected(old(Model())), topN)
      ensures !memory || topN <= 0 ==> top == []
      ensures top != [] ==> Holds(buf, Shown(Report(top), len)) && ReportShows(Report(top), top)
      ensures top == [] ==> buf[1..] == old(buf[1..])
      ensures top == [] ==> buf[0] == if memory && Collected(old(Model())) == [] then NUL else old(buf[0])
    {
      top := [];
      if !memory {
        return;
      }
      ghost var t := Model();
      var entries := new AddrStat?[MAX_TOP_ADDRS](_ => null);
      var count, rows := Collect(entries);
      if count == 0 {
        assert Ranking([], rows);
        buf[0] := NUL;
        return;
      }
      var shown := if topN > count then count else topN;
      ghost var ranked := SortEntries(entries, count, rows);
      if shown > 0 {
        top := Take(ranked, topN);
        assert Ranking(ranked, Collected(t));
        PrintTop(entries, shown, buf, len, top);
      }
    }

    /** Each entry's row, as a function that does not depend on the heap. */
    ghost function RowOf(): (f: AddrStat? -> Row)
      reads this, repr
      ensures forall e | e in repr :: f(e) == e.ToRow()
    {
      var snapshot := map e: AddrStat? | e in repr && e != null :: e.ToRow();
      (e: AddrStat?) => if e in snapshot then snapshot[e] else Row(Ipv4(0, 0, 0, 0), Ipv4(0, 0, 0, 0), 0, 0)
    }

    /** sort(entries, count, ..., cmp_bytes_desc): descending by total. */
    method SortEntries(entries: array<AddrStat?>, count: nat, ghost rows: seq<Row>) returns (ghost ranked: seq<Row>)
      requires Valid() && entries as object != buckets
      requires count == |rows| && Holding(entries, rows)
      modifies entries
      ensures |ranked| == count && Holding(entries, ranked)
      ensures Ranking(ranked, rows)
    {
      ghost var rowOf := RowOf();
      ghost var before := entries[..count];
      assert Map(rowOf, before) == rows;
      SortByTotal(entries, count, rowOf);
      ghost var after := entries[..count];
      forall i: nat | i < count
        ensures entries[i] in before
      {
        assert after[i] in multiset(after);
      }
      ranked := Map(rowOf, after);
      PermutedMap(rowOf, after, before);
    }
  }

  method SortByTotal(entries: array<AddrStat?>, count: nat, ghost rowOf: AddrStat? -> Row)
    requires count <= entries.Length
    requires forall i: nat | i < count :: entries[i] != null && rowOf(entries[i]) == entries[i].ToRow()
    modifies entries
    ensures multiset(entries[..count]) == multiset(old(entries[..count]))
    ensures Descending(Map(rowOf, entries[..count]))
  {
    var cmp := (x: AddrStat?, y: AddrStat?) requires x != null && y != null reads x, y => CmpBytesDesc(x, y);
    ghost var rank: AddrStat? -> int := e => 0 - (TotalBytes(rowOf(e)) as int);
    Sorting.Sort(entries, count, cmp, rank);
    DescendingByRank(entries[..count], rowOf, rank);
  }

  lemma DescendingByRank<T>(s: seq<T>, rowOf: T -> Row, rank: T -> int)
    requires Sorting.Sorted(s, rank)
    requires forall e | e in s :: rank(e) == 0 - (TotalBytes(rowOf(e)) as int)
    ensures Descending(Map(rowOf, s))
  {
  }

  /** cmp_bytes_desc: the larger total first. */
  function CmpBytesDesc(sa: AddrStat, sb: AddrStat): int
    reads sa, sb
  {
    if TotalBytes(sa.ToRow()) < TotalBytes(sb.ToRow()) then 1
    else if TotalBytes(sa.ToRow()) > TotalBytes(sb.ToRow()) then -1
    else 0
  }

  method PrintTop(entries: array<AddrStat?>, shown: nat, buf: array<char>, len: nat, ghost top: seq<Row>)
    requires 0 < shown == |top| <= entries.Length && 0 < len <= buf.Length && buf as object != entries
    requires forall i: nat | i < shown :: entries[i] != null && entries[i].ToRow() == top[i]
    modifies buf
    ensures Holds(buf, Shown(Report(top), len)) && ReportShows(Report(top), top)
  {
    ReportReads(top);
    ghost var lines, printed := PrintedTexts(top);
    var pos := PrintRows(entries, shown, buf, len, lines, printed);
  }

  /** One row; when nothing of it fits, the buffer shows all further rows as well. */
  method PrintRow(entry: AddrStat, buf: array<char>, pos: nat, len: nat, i: nat,
                  ghost lines: seq<string>, ghost printed: seq<string>) returns (n: nat)
    requires i < |lines| && Growing(lines, printed)
    requires ReportText.Line(entry.ToRow()) == lines[i] != ""
    requires Showing(buf, pos, len, printed[i]) && len > 0
    modifies buf
    ensures n > 0 ==> Showing(buf, pos + n, len, printed[i + 1])
    ensures n == 0 ==> Showing(buf, pos, len, printed[|lines|])
    ensures pos + n < len && buf[pos + n] == NUL
  {
    n := Append(buf, pos, len, ReportText.Line(entry.ToRow()), printed[i]);
    if n == 0 {
      NothingMore(lines, printed, i, |lines|, buf, len);
    }
  }

  /** The printing loop: it stops when the buffer is full. */
  method PrintRows(entries: array<AddrStat?>, shown: nat, buf: array<char>, len: nat,
                   ghost lines: seq<string>, ghost printed: seq<string>) returns (pos: nat)
    requires shown == |lines| <= entries.Length && 0 < len <= buf.Length && buf as object != entries
    requires Growing(lines, printed) && printed[0] == ""
    requires forall i: nat | i < shown ::
               entries[i] != null && ReportText.Line(entries[i].ToRow()) == lines[i] != ""
    modifies buf
    ensures Showing(buf, pos, len, printed[shown]) && (shown > 0 ==> buf[pos] == NUL)
  {
    pos := 0;
    NothingPrinted(buf, len);
    var i: nat := 0;
    while i < shown && pos < len
      invariant i <= shown
      invariant Showing(buf, pos, len, printed[i])
      invariant i > 0 ==> buf[pos] == NUL
    {
      var n := PrintRow(entries[i], buf, pos, len, i, lines, printed);
      if n == 0 {
        break;
      }
      pos := pos + n;
      i := i + 1;
    }
  }

  lemma PrintedTexts(top: seq<Row>) returns (lines: seq<string>, printed: seq<string>)
    ensures |lines| == |top| && forall i: nat | i < |top| :: lines[i] == ReportText.Line(top[i]) != ""
    ensures Growing(lines, printed) && printed[0] == "" && printed[|top|] == Report(top)
  {
    lines := Map(ReportText.Line, top);
    printed := seq(|top| + 1, i requires 0 <= i <= |top| => Report(top[..i]));
    forall i: nat | i < |top|
      ensures lines[i] != "" && printed[i + 1] == printed[i] + lines[i]
    {
      assert top[..i + 1] == top[..i] + [top[i]];
      ReportSnoc(top[..i], top[i]);
      LineLength(top[i]);
    }
    assert top[..0] == [] && top[..|top|] == top;
  }

  lemma AppendOne(before: seq<Row>, chain: seq<Row>, i: nat)
    requires i < |chain|
    ensures (before + chain[..i]) + [chain[i]] == before + chain[..i + 1]
  {
  }

  lemma FlattenStep(t: Table, b: nat)
    requires b < BUCKETS
    ensures Flatten(t[..b + 1]) == Flatten(t[..b]) + t[b]
  {
    assert t[..b + 1][..b] == t[..b];
  }

  lemma {:induction false} FlattenPrefix(t: seq<seq<Row>>, b: nat)
    requires b <= |t|
    ensures Flatten(t[..b]) <= Flatten(t)
  {
    if b < |t| {
      FlattenPrefix(t[..|t| - 1], b);
      assert t[..|t| - 1][..b] == t[..b];
    } else {
      assert t[..b] == t;
    }
  }

  /** What is collected from the first buckets, once that is more than fits. */
  lemma TakePrefix(t: Table, b: nat)
    requires b <= BUCKETS && |Flatten(t[..b])| > MAX_TOP_ADDRS
    ensures Take(Flatten(t[..b]), MAX_TOP_ADDRS) == Collected(t)
  {
    FlattenPrefix(t, b);
  }

  lemma FindIs(chain: seq<Row>, key: Key, i: nat)
    requires i <= |chain|
    requires i < |chain| ==> KeyOf(chain[i]) == key
    requires forall j: nat | j < i :: KeyOf(chain[j]) != key
    ensures Find(chain, key) == i
  {
  }
}

/**
 From recorded transfers to gauges: the module parameter that prints the
 report into a page, and what the exporter makes of that page.
 */
module Exporter {
  import opened Text
  import opened ReportText
  import opened TrafficTable
  import opened TopTraffic
  import opened Reading
  import opened Buffer
  import GoStrings
  import TrafficStats
  import C = Collector
  import T = RoundTrip

  const PAGE_SIZE: nat := 4096

  // ---- reading the parameter

  lemma NoNulBody(row: Row)
    ensures NUL !in Body(row)
  {
    DottedShape(row.saddr);
    DottedShape(row.daddr);
  }

  lemma NoNul(rows: seq<Row>)
    ensures NUL !in Report(rows)
  {
    forall b | b in Bodies(rows)
      ensures NUL !in b
    {
      var i: nat :| i < |rows| && Bodies(rows)[i] == b;
      NoNulBody(rows[i]);
    }
    NoNulJoined(Bodies(rows));
  }

  lemma {:induction false} NoNulJoined(bodies: seq<string>)
    requires forall b | b in bodies :: NUL !in b
    ensures NUL !in Joined(bodies)
  {
    if bodies != [] {
      NoNulJoined(bodies[1..]);
    }
  }

  /** The read callback of top_addrs: the page is emptied first, so a report
      that prints nothing reads as the empty text. */
  method TopAddrsGet(stats: TrafficStats.TrafficStats, buf: array<char>, topN: int, memory: bool)
    returns (n: nat, ghost top: seq<Row>)
    requires stats.Valid() && buf.Length == PAGE_SIZE && buf as object != stats.buckets
    modifies buf
    ensures memory && topN > 0 ==> IsTop(top, Collected(old(stats.Model())), topN)
    ensures !memory || topN <= 0 ==> top == []
    ensures n < PAGE_SIZE && buf[..n] == Shown(Report(top), PAGE_SIZE)
    ensures ReportShows(Report(top), top)
  {
    buf[0] := NUL;
    top := stats.GetTop(buf, PAGE_SIZE, topN, memory);
    NoNul(top);
    ReportReads(top);
    n := Strlen(buf, Shown(Report(top), PAGE_SIZE));
  }

  // ---- from the table to the gauges

  /** The exporter's label pair for a row. */
  function Labels(row: Row): (string, string) {
    (Dotted(row.saddr), Dotted(row.daddr))
  }

  lemma LabelsInjective(a: Row, b: Row)
    requires Labels(a) == Labels(b)
    ensures KeyOf(a) == KeyOf(b)
  {
    DottedInjective(a.saddr, b.saddr);
    DottedInjective(a.daddr, b.daddr);
  }

  predicate Labelled(es: seq<C.Entry>, rows: seq<Row>) {
    |es| == |rows| && forall i: nat | i < |es| :: (es[i].src, es[i].dst) == Labels(rows[i])
  }

  lemma LabelsDistinct(es: seq<C.Entry>, rows: seq<Row>)
    requires DistinctKeys(rows) && Labelled(es, rows)
    ensures forall i: nat, j: nat | i < j < |es| :: (es[i].src, es[i].dst) != (es[j].src, es[j].dst)
  {
    forall i: nat, j: nat | i < j < |es|
      ensures Labels(rows[i]) != Labels(rows[j])
    {
      if Labels(rows[i]) == Labels(rows[j]) {
        LabelsInjective(rows[i], rows[j]);
      }
    }
  }

  /** Entries labelled by rows with different keys give the gauges one value each. */
  lemma GaugesOfRows(es: seq<C.Entry>, rows: seq<Row>, value: C.Entry -> nat)
    requires DistinctKeys(rows) && Labelled(es, rows)
    ensures var gauges := C.SetAll(es, value);
      && (forall pair :: pair in gauges <==> exists row :: row in rows && pair == Labels(row))
      && forall i: nat | i < |rows| :: Labels(rows[i]) in gauges && gauges[Labels(rows[i])] == value(es[i])
  {
    LabelsDistinct(es, rows);
    C.SetAllDistinct(es, value);
    var gauges := C.SetAll(es, value);
    forall pair | pair in gauges
      ensures exists row :: row in rows && pair == Labels(row)
    {
      var e :| e in es && (e.src, e.dst) == pair;
      var i: nat :| i < |es| && es[i] == e;
      assert rows[i] in rows;
    }
    forall i: nat | i < |rows|
      ensures Labels(rows[i]) in gauges && gauges[Labels(rows[i])] == value(es[i])
    {
      assert es[i] in es;
    }
  }

  // ---- from recorded transfers to gauges

  /** The text of the parameter for these rows. */
  function Page(top: seq<Row>): string {
    Shown(Report(top), PAGE_SIZE)
  }

  lemma PageIsCut(top: seq<Row>)
    ensures |Page(top)| <= |Report(top)| && Page(top) == Report(top)[..|Page(top)|]
  {
  }

  /** The rows the exporter learns of from a page with m complete lines: those
      m, and one more when a digit of its last number is still there. */
  ghost function Reaching(top: seq<Row>, m: nat): (rows: seq<Row>)
    requires T.CompleteRows(top, |Page(top)|, m)
    ensures rows <= top
  {
    if T.LastEntry(top, |Page(top)|, m).Some? then top[..m + 1] else top[..m]
  }

  /** The entries of some rows, but for the sent bytes past the first m. */
  ghost predicate EntriesOf(es: seq<C.Entry>, rows: seq<Row>, m: nat) {
    && Labelled(es, rows)
    && forall i: nat | i < |es| ::
         && es[i].recvBytes == rows[i].recv && es[i].sendBytes <= rows[i].send
         && (i < m ==> es[i].sendBytes == rows[i].send)
  }

  lemma WholeEntries(rows: seq<Row>)
    ensures EntriesOf(T.Entries(rows), rows, |rows|)
  {
  }

  lemma OneMoreEntry(rows: seq<Row>, row: Row, e: C.Entry)
    requires (e.src, e.dst) == Labels(row) && e.recvBytes == row.recv && e.sendBytes <= row.send
    ensures EntriesOf(T.Entries(rows) + [e], rows + [row], |rows|)
  {
    WholeEntries(rows);
  }

  lemma FirstRows(top: seq<Row>, m: nat)
    requires m < |top|
    ensures top[..m + 1] == top[..m] + [top[m]]
  {
  }

  ghost function Learnt(top: seq<Row>, m: nat): seq<C.Entry>
    requires T.CompleteRows(top, |Page(top)|, m)
  {
    T.Entries(top[..m]) + C.Prepend(T.LastEntry(top, |Page(top)|, m), [])
  }

  lemma PageRead(top: seq<Row>, m: nat)
    requires T.CompleteRows(top, |Page(top)|, m)
    ensures C.ParseReport(Page(top)) == C.Ok(Learnt(top, m))
  {
    PageIsCut(top);
    T.ReadBack(top, |Page(top)|, m);
  }

  /** What is read from the page, entry by entry. */
  lemma LearntOfRows(top: seq<Row>, m: nat)
    requires T.CompleteRows(top, |Page(top)|, m)
    ensures EntriesOf(Learnt(top, m), Reaching(top, m), m)
  {
    var last := T.LastEntry(top, |Page(top)|, m);
    C.NextEntries(T.Entries(top[..m]), last);
    if last.Some? {
      T.LastEntryShows(top, |Page(top)|, m);
      OneMoreEntry(top[..m], top[m], last.value);
      FirstRows(top, m);
    } else {
      WholeEntries(top[..m]);
    }
  }

  /** The gauges have exactly the rows' labels, which read as their two
      addresses; for these counters, each shows
      its row's received bytes, and its sent bytes for the first m rows.  What
      it shows sent for a further row is no more than was. */
  ghost predicate GaugesShow(recv: C.Gauges, send: C.Gauges, rows: seq<Row>, m: nat, counters: Key -> Counters) {
    && recv.Keys == send.Keys
    && (forall pair :: pair in recv <==> exists row :: row in rows && pair == Labels(row))
    && forall i: nat | i < |rows| ::
         && Labels(rows[i]) in recv && Labels(rows[i]) in send
         && IsAddress(Labels(rows[i]).0, rows[i].saddr) && IsAddress(Labels(rows[i]).1, rows[i].daddr)
         && var c := counters(KeyOf(rows[i]));
            && c.Counters? && recv[Labels(rows[i])] == c.recv
            && send[Labels(rows[i])] <= c.send
            && (i < m ==> send[Labels(rows[i])] == c.send)
  }

  lemma EntriesShow(es: seq<C.Entry>, rows: seq<Row>, m: nat, counters: Key -> Counters)
    requires DistinctKeys(rows) && EntriesOf(es, rows, m)
    requires forall row | row in rows :: counters(KeyOf(row)) == Counters(row.recv, row.send)
    ensures GaugesShow(C.SetAll(es, C.RecvOf), C.SetAll(es, C.SendOf), rows, m, counters)
  {
    GaugesOfRows(es, rows, C.RecvOf);
    GaugesOfRows(es, rows, C.SendOf);
    assert C.SetAll(es, C.RecvOf).Keys == C.SetAll(es, C.SendOf).Keys;
    forall i: nat | i < |rows|
      ensures counters(KeyOf(rows[i])) == Counters(rows[i].recv, rows[i].send)
      ensures IsAddress(Labels(rows[i]).0, rows[i].saddr) && IsAddress(Labels(rows[i]).1, rows[i].daddr)
    {
      assert rows[i] in rows;
      DottedReads(rows[i].saddr);
      DottedReads(rows[i].daddr);
    }
  }

  lemma FirstKeys(rows: seq<Row>, top: seq<Row>)
    requires rows <= top && DistinctKeys(top)
    ensures DistinctKeys(rows) && forall row | row in rows :: row in top
  {
  }

  lemma TopHistory(hash: Hash, calls: seq<Transfer>, topN: nat, top: seq<Row>)
    requires IsTop(top, Collected(Run(hash, calls)), topN)
    ensures DistinctKeys(top)
    ensures forall row | row in top :: History(calls, KeyOf(row)) == Counters(row.recv, row.send)
  {
    RunWellKept(hash, calls);
    TopKeys(Run(hash, calls), hash, topN, top);
    forall row | row in top
      ensures History(calls, KeyOf(row)) == Counters(row.recv, row.send)
    {
      CountersAreSums(hash, calls, KeyOf(row));
    }
  }

  /** End to end: record any transfers, with memory failing at any of them,
      print the top rows into a page and let the exporter read it.  Wherever the
      page cuts the report, m lines are complete, the gauges have the routes of
      those lines and at most one more as labels, and each shows its route's
      whole history modulo 2^64, but for the sent bytes of that one, of which
      they show no more than there were. */
  lemma GaugesShowHistory(hash: Hash, calls: seq<Transfer>, topN: nat, top: seq<Row>) returns (m: nat)
    requires IsTop(top, Collected(Run(hash, calls)), topN)
    ensures T.CompleteRows(top, |Page(top)|, m)
    ensures var r, rows := C.ParseReport(Page(top)), Reaching(top, m);
      && r.Ok? && |r.value| == |rows|
      && GaugesShow(C.SetAll(r.value, C.RecvOf), C.SetAll(r.value, C.SendOf), rows, m, key => History(calls, key))
  {
    m := T.CompleteRowsExist(top, |Page(top)|);
    PageRead(top, m);
    LearntOfRows(top, m);
    TopHistory(hash, calls, topN, top);
    FirstKeys(Reaching(top, m), top);
    EntriesShow(Learnt(top, m), Reaching(top, m), m, key => History(calls, key));
  }

  /** As long as the text is no longer than the page, nothing is missing. */
  lemma GaugesShowAll(hash: Hash, calls: seq<Transfer>, topN: nat, top: seq<Row>)
    requires IsTop(top, Collected(Run(hash, calls)), topN)
    requires |Report(top)| <= PAGE_SIZE
    ensures var r := C.ParseReport(Page(top));
      && r.Ok? && |r.value| == |top|
      && GaugesShow(C.SetAll(r.value, C.RecvOf), C.SetAll(r.value, C.SendOf), top, |top|, key => History(calls, key))
  {
    T.ReadBackIff(top, PAGE_SIZE);
    TopHistory(hash, calls, topN, top);
    EntriesShow(T.Entries(top), top, |top|, key => History(calls, key));
  }

  // ---- module and exporter run one after the other

  /** The module's table after some transfers. */
  method RecordAll(hash: Hash, calls: seq<Transfer>) returns (stats: TrafficStats.TrafficStats)
    ensures stats.Valid() && fresh(stats) && fresh(stats.buckets) && fresh(stats.repr) && stats.hash == hash
    ensures stats.Model() == Run(hash, calls)
  {
    stats := new TrafficStats.TrafficStats(hash);
    for i := 0 to |calls|
      invariant stats.Valid() && fresh(stats.buckets) && fresh(stats.repr)
      invariant stats.Model() == Run(hash, calls[..i])
    {
      RunNext(hash, calls, i);
      stats.RecordTraffic(calls[i]);
    }
    assert calls[..|calls|] == calls;
  }

  /** Record some transfers, read the parameter and update the collector from
      what was read: its gauges show the histories of those transfers.  `memory`
      is the outcome of the report's own allocation. */
  method RecordAndUpdate(hash: Hash, calls: seq<Transfer>, topN: int, memory: bool, collector: C.Collector)
    returns (ok: bool, ghost top: seq<Row>, ghost m: nat)
    modifies collector
    ensures memory && topN > 0 ==> IsTop(top, Collected(Run(hash, calls)), topN)
    ensures !memory || topN <= 0 ==> top == []
    ensures T.CompleteRows(top, |Page(top)|, m)
    ensures ok && collector.topAddrs == |Reaching(top, m)|
    ensures GaugesShow(collector.trafficRecv, collector.trafficSend, Reaching(top, m), m, key => History(calls, key))
  {
    var stats := RecordAll(hash, calls);
    var buf := new char[PAGE_SIZE];
    var n;
    n, top := TopAddrsGet(stats, buf, topN, memory);
    ghost var shown: nat := if memory && topN > 0 then topN else 0;
    NothingIsTop(Collected(Run(hash, calls)));
    m := GaugesShowHistory(hash, calls, shown, top);
    ok := collector.Update(GoStrings.Some(buf[..n]));
  }

  lemma NothingIsTop(rows: seq<Row>)
    ensures IsTop([], rows, 0)
  {
    var ranked := RankingExists(rows);
    assert Take(ranked, 0) == [];
  }
}

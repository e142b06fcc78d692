/**
 What the reader of a page learns: how long reports can get, how many rows a
 page always holds, and when it shows the N busiest routes.
 */
module PageLimit {
  import opened Text
  import opened ReportText
  import opened TrafficTable
  import opened TopTraffic
  import opened BusiestRoutes
  import opened Exporter
  import opened Maps
  import C = Collector
  import T = RoundTrip

  // ---- the longest line

  lemma DecimalBounds(n: nat)
    requires n > 0
    ensures Pow10(|Decimal(n)| - 1) <= n < Pow10(|Decimal(n)|)
  {
    var d := |Decimal(n)|;
    if n < Pow10(d - 1) {
      assert d > 1;
      DecimalLength(n, d - 1);
    }
    if n >= Pow10(d) {
      DecimalLongerThan(n, d);
    }
  }

  lemma {:induction false} DigitsMonotone(a: nat, b: nat)
    requires a <= b
    ensures |Decimal(a)| <= |Decimal(b)|
  {
    if a >= 10 {
      DigitsMonotone(a / 10, b / 10);
    }
  }

  lemma {:induction false} PowerDigits(k: nat)
    ensures Pow10(k) > 0 && |Decimal(Pow10(k))| == k + 1
  {
    if k > 0 {
      PowerDigits(k - 1);
    }
  }

  /** What the largest power of ten in a number leaves of it. */
  function Rest(bound: nat): nat
    requires bound > 0
  {
    DecimalBounds(bound);
    bound - Pow10(|Decimal(bound)| - 1)
  }

  /** The most digits that two numbers can have whose sum is at most `bound`. */
  function MostDigits(bound: nat): nat
    requires bound > 0
  {
    var d := |Decimal(bound)|;
    var unequal, equal := d + |Decimal(Rest(bound))|, 2 * (d - 1);
    if unequal < equal then equal else unequal
  }

  lemma DigitsWithin(recv: nat, send: nat, bound: nat)
    requires recv + send <= bound && bound > 0
    ensures |Decimal(recv)| + |Decimal(send)| <= MostDigits(bound)
  {
    DigitsOrdered(if recv < send then send else recv, if recv < send then recv else send, bound);
  }

  lemma DigitsOrdered(big: nat, small: nat, bound: nat)
    requires small <= big && big + small <= bound && bound > 0
    ensures |Decimal(big)| + |Decimal(small)| <= MostDigits(bound)
  {
    DigitsMonotone(big, bound);
    DigitsMonotone(small, big);
    if |Decimal(big)| == |Decimal(bound)| && big > 0 {
      DecimalBounds(big);
      DigitsMonotone(small, Rest(bound));
    }
  }

  lemma DigitsReached(bound: nat) returns (recv: nat, send: nat)
    requires bound > 0
    ensures 0 < recv + send <= bound
    ensures |Decimal(recv)| + |Decimal(send)| == MostDigits(bound)
  {
    var d := |Decimal(bound)|;
    DecimalBounds(bound);
    PowerDigits(d - 1);
    if d + |Decimal(Rest(bound))| >= 2 * (d - 1) {
      recv, send := Pow10(d - 1), Rest(bound);
    } else {
      PowerDigits(d - 2);
      recv, send := Pow10(d - 2), Pow10(d - 2);
    }
  }

  /** The longest line, newline included, for a row of at most `bound` bytes. */
  function LongestLine(bound: nat): nat
    requires bound > 0
  {
    37 + MostDigits(bound)
  }

  lemma LineParts(row: Row)
    ensures |Line(row)| == |Dotted(row.saddr)| + |Dotted(row.daddr)| + 7 + |Decimal(row.recv)| + |Decimal(row.send)|
  {
  }

  lemma LineWithin(row: Row, bound: nat)
    requires bound > 0 && row.recv + row.send <= bound
    ensures |Line(row)| <= LongestLine(bound)
  {
    LineParts(row);
    DottedShape(row.saddr);
    DottedShape(row.daddr);
    DigitsWithin(row.recv, row.send, bound);
  }

  // ---- any counts on the routes with the longest addresses

  const CHUNK: nat := 1_000_000_000

  /** Calls that move so many bytes in one direction on each route, in chunks. */
  ghost function Moved(keys: seq<Key>, isSend: bool, bytes: nat): seq<Transfer>
    decreases bytes
  {
    if bytes == 0 then []
    else
      var chunk := if bytes < CHUNK then bytes else CHUNK;
      Moved(keys, isSend, bytes - chunk) + Once(keys, isSend, chunk, true)
  }

  lemma {:induction false} MovedTotal(keys: seq<Key>, isSend: bool, bytes: nat, key: Key, dir: bool)
    requires NoDuplicates(keys)
    ensures Total(Moved(keys, isSend, bytes), key, dir) == if key in keys && dir == isSend then bytes else 0
    decreases bytes
  {
    if bytes > 0 {
      var chunk := if bytes < CHUNK then bytes else CHUNK;
      MovedTotal(keys, isSend, bytes - chunk, key, dir);
      TotalAppend(Moved(keys, isSend, bytes - chunk), Once(keys, isSend, chunk, true), key, dir);
      TotalOnce(keys, isSend, chunk, true, key, dir);
    }
  }

  /** Routes the probes can report. */
  predicate ProbedKeys(keys: seq<Key>) {
    NoDuplicates(keys) && forall key | key in keys :: key.0 != Ipv4(0, 0, 0, 0) && key.1 != Ipv4(0, 0, 0, 0)
  }

  lemma {:induction false} MovedProbed(keys: seq<Key>, isSend: bool, bytes: nat)
    requires ProbedKeys(keys)
    ensures forall c | c in Moved(keys, isSend, bytes) :: Probed(c) && c.memory && KeyOfTransfer(c) in keys
    ensures bytes > 0 ==> forall key | key in keys :: key in Routes(Moved(keys, isSend, bytes))
    decreases bytes
  {
    if bytes > 0 {
      var chunk := if bytes < CHUNK then bytes else CHUNK;
      var once := Once(keys, isSend, chunk, true);
      MovedProbed(keys, isSend, bytes - chunk);
      forall c | c in once
        ensures Probed(c) && c.memory && KeyOfTransfer(c) in keys
      {
        var i: nat :| i < |once| && once[i] == c;
        assert keys[i] in keys;
      }
      forall key | key in keys
        ensures key in Routes(Moved(keys, isSend, bytes))
      {
        var i: nat :| i < |keys| && keys[i] == key;
        assert once[i] in Moved(keys, isSend, bytes);
      }
    }
  }

  lemma BothMoved(keys: seq<Key>, recv: nat, send: nat) returns (calls: seq<Transfer>)
    requires ProbedKeys(keys) && recv + send > 0
    ensures Setting(calls, |keys|, recv + send, false) && Routes(calls) == set key | key in keys
    ensures forall key | key in keys :: Total(calls, key, false) == recv && Total(calls, key, true) == send
  {
    var received, sent := Moved(keys, false, recv), Moved(keys, true, send);
    calls := received + sent;
    MovedProbed(keys, false, recv);
    MovedProbed(keys, true, send);
    forall key, dir
      ensures Total(calls, key, dir) == if key !in keys then 0 else if dir then send else recv
    {
      TotalAppend(received, sent, key, dir);
      MovedTotal(keys, false, recv, key, dir);
      MovedTotal(keys, true, send, key, dir);
    }
    BothRoutes(keys, received, sent);
    NoDuplicatesCard(keys);
  }

  lemma BothRoutes(keys: seq<Key>, a: seq<Transfer>, b: seq<Transfer>)
    requires forall c | c in a || c in b :: KeyOfTransfer(c) in keys
    requires (forall key | key in keys :: key in Routes(a)) || forall key | key in keys :: key in Routes(b)
    ensures Routes(a + b) == set key | key in keys
  {
    assert Routes(a + b) == Routes(a) + Routes(b);
  }

  /** Some routes whose addresses take fifteen characters each. */
  function LongRoutes(m: nat): (keys: seq<Key>)
    requires m <= MAX_TOP_ADDRS
    ensures |keys| == m && ProbedKeys(keys)
    ensures forall key | key in keys :: LongAddress(key.0) && LongAddress(key.1)
  {
    seq(m, i requires 0 <= i < m => (Ipv4(200, 200, 200, 200), Ipv4(200, 200, 200, 100 + i)))
  }

  predicate LongAddress(ip: Ipv4) {
    ip.b0 >= 100 && ip.b1 >= 100 && ip.b2 >= 100 && ip.b3 >= 100
  }

  lemma LongAddressLength(ip: Ipv4)
    requires LongAddress(ip)
    ensures |Dotted(ip)| == 15
  {
    forall b: nat | 100 <= b < 256
      ensures |Decimal(b)| == 3
    {
      assert |Decimal(b / 100)| == 1 && b / 10 / 10 == b / 100;
    }
  }

  /** Calls of the probes that fill every line of a report of m routes. */
  lemma LongReport(hash: Hash, m: nat, recv: Word, send: Word) returns (calls: seq<Transfer>)
    requires m <= MAX_TOP_ADDRS && recv + send > 0
    ensures Setting(calls, m, recv + send, false)
    ensures |Flatten(Run(hash, calls))| == m
    ensures forall row | row in Flatten(Run(hash, calls)) :: |Line(row)| == 37 + |Decimal(recv)| + |Decimal(send)|
  {
    var keys := LongRoutes(m);
    calls := BothMoved(keys, recv, send);
    VisitedKeys(hash, calls);
    forall row | row in Flatten(Run(hash, calls))
      ensures |Line(row)| == 37 + |Decimal(recv)| + |Decimal(send)|
    {
      assert KeyOf(row) in keys && row.recv == recv && row.send == send;
      LongAddressLength(row.saddr);
      LongAddressLength(row.daddr);
      LineParts(row);
    }
  }

  function Min(a: nat, b: nat): nat {
    if a < b then a else b
  }

  lemma TopLength(t: Table, n: nat, top: seq<Row>, line: nat)
    requires IsTop(top, Collected(t), n) && |Flatten(t)| <= MAX_TOP_ADDRS
    ensures |top| == Min(n, |Flatten(t)|)
    ensures (forall row | row in Flatten(t) :: |Line(row)| <= line) ==> |Report(top)| <= |top| * line
    ensures (forall row | row in Flatten(t) :: |Line(row)| == line) ==> |Report(top)| == |top| * line
  {
    TopMeaning(top, Flatten(t), n);
    forall row | row in top
      ensures row in Flatten(t)
    {
      assert row in multiset(top) && row in multiset(Flatten(t));
    }
    ReportLength(top, line);
  }

  // ---- how many rows a page always holds

  /** Up to 53 rows always fit a page. */
  lemma FitsPage(top: seq<Row>)
    requires |top| <= 53
    ensures |Report(top)| < PAGE_SIZE
  {
    forall row | row in top
      ensures |Line(row)| <= 77
    {
      LineLength(row);
    }
    ReportLength(top, 77);
  }

  /** The exporter learns exactly the rows that were chosen. */
  ghost predicate Legible(top: seq<Row>) {
    C.ParseReport(Page(top)) == C.Ok(T.Entries(top))
  }

  lemma LegibleIff(top: seq<Row>)
    ensures Legible(top) <==> |Report(top)| <= PAGE_SIZE
  {
    T.ReadBackIff(top, PAGE_SIZE);
  }

  lemma TopExists(t: Table, n: nat) returns (top: seq<Row>)
    ensures IsTop(top, Collected(t), n)
  {
    var ranked := RankingExists(Collected(t));
    top := Take(ranked, n);
  }

  /** Whatever the probes record, the exporter reads back exactly the rows that
      were to be shown: this holds for a parameter top_n of up to 53, and for no
      larger one. */
  lemma FitsPageIff(hash: Hash, topN: nat)
    ensures topN <= 53
       <==> forall calls, top | (forall c | c in calls :: Probed(c)) && IsTop(top, Collected(Run(hash, calls)), topN) ::
              Legible(top)
  {
    if topN <= 53 {
      forall calls, top | IsTop(top, Collected(Run(hash, calls)), topN)
        ensures Legible(top)
      {
        TopMeaning(top, Collected(Run(hash, calls)), topN);
        FitsPage(top);
        LegibleIff(top);
      }
    } else {
      WordDigits();
      var calls := LongReport(hash, 54, WORD64 - 1, WORD64 - 1);
      var top := TopExists(Run(hash, calls), topN);
      TopLength(Run(hash, calls), topN, top, 77);
      LegibleIff(top);
    }
  }

  lemma WordDigits()
    ensures |Decimal(WORD64 - 1)| == 20
  {
    assert Pow10(4) == 10000;
    assert Pow10(8) == 1_0000_0000;
    assert Pow10(12) == 1_0000_0000_0000;
    assert Pow10(16) == 1_0000_0000_0000_0000;
    assert Pow10(19) == 1000_0000_0000_0000_0000;
    DecimalLongerThan(WORD64 - 1, 19);
    Word64Digits(WORD64 - 1);
  }

  // ---- the promise, on what the page shows

  /** The rows are the n busiest routes, and the reader of the page learns them all. */
  ghost predicate PageShowsBusiest(top: seq<Row>, calls: seq<Transfer>, n: nat) {
    Busiest(top, calls, n) && Legible(top)
  }

  ghost predicate AlwaysShown(hash: Hash, m: nat, n: nat, bound: nat, memoryFails: bool) {
    forall calls, top | Setting(calls, m, bound, memoryFails) && IsTop(top, Collected(Run(hash, calls)), n) ::
      PageShowsBusiest(top, calls, n)
  }

  /** The rows to be shown fit a page, even when every line is the longest. */
  predicate FitsAnyway(m: nat, n: nat, bound: nat)
    requires bound > 0
  {
    m <= 1 || Min(n, m) * LongestLine(bound) <= PAGE_SIZE
  }

  lemma RowWithin(calls: seq<Transfer>, key: Key, bound: nat)
    requires bound > 0 && Traffic(calls, key) <= bound
    ensures |Line(RowFor(calls, key))| <= LongestLine(bound)
  {
    var recv, send := Total(calls, key, false), Total(calls, key, true);
    assert recv % WORD64 <= recv && send % WORD64 <= send;
    LineWithin(RowFor(calls, key), bound);
  }

  lemma FitsWithin(hash: Hash, calls: seq<Transfer>, m: nat, n: nat, bound: nat, top: seq<Row>)
    requires Setting(calls, m, bound, false) && m <= MAX_TOP_ADDRS && bound > 0
    requires Min(n, m) * LongestLine(bound) <= PAGE_SIZE
    requires IsTop(top, Collected(Run(hash, calls)), n)
    ensures |Report(top)| <= PAGE_SIZE
  {
    VisitedKeys(hash, calls);
    forall row | row in Flatten(Run(hash, calls))
      ensures |Line(row)| <= LongestLine(bound)
    {
      RowWithin(calls, KeyOf(row), bound);
    }
    TopLength(Run(hash, calls), n, top, LongestLine(bound));
  }

  lemma ShownWithin(hash: Hash, m: nat, n: nat, bound: nat, memoryFails: bool)
    requires bound > 0 && Choosable(m, n, bound, memoryFails)
    requires n == 0 || m == 0 || FitsAnyway(m, n, bound)
    ensures AlwaysShown(hash, m, n, bound, memoryFails)
  {
    ChosenWithin(hash, m, n, bound, memoryFails);
    forall calls, top | Setting(calls, m, bound, memoryFails) && IsTop(top, Collected(Run(hash, calls)), n)
      ensures PageShowsBusiest(top, calls, n)
    {
      assert Busiest(top, calls, n);
      if n == 0 || m <= 1 {
        FitsPage(top);
      } else {
        FitsWithin(hash, calls, m, n, bound, top);
      }
      LegibleIff(top);
    }
  }

  lemma SettingGrows(calls: seq<Transfer>, m: nat, bound: nat, larger: nat, memoryFails: bool)
    requires Setting(calls, m, bound, memoryFails) && bound <= larger
    ensures Setting(calls, m, larger, memoryFails)
  {
  }

  /** Rows that do not fit: the longest lines on every route. */
  lemma CutNotShown(hash: Hash, m: nat, n: nat, bound: nat, memoryFails: bool)
    requires 0 < bound < WORD64 && m <= MAX_TOP_ADDRS && Min(n, m) * LongestLine(bound) > PAGE_SIZE
    requires !memoryFails
    ensures !AlwaysShown(hash, m, n, bound, memoryFails)
  {
    var recv, send := DigitsReached(bound);
    var calls := LongReport(hash, m, recv, send);
    SettingGrows(calls, m, recv + send, bound, memoryFails);
    var top := TopExists(Run(hash, calls), n);
    TopLength(Run(hash, calls), n, top, LongestLine(bound));
    LegibleIff(top);
    assert !PageShowsBusiest(top, calls, n);
  }

  /** The documentation promises the n routes with the most traffic.  Whatever
      the probes record on m routes of at most `bound` bytes each, and however
      the sort leaves equal totals, those are what a reader of the page learns
      if and only if memory is never short, the m routes fit the slots they are
      collected in, no route's bytes can exceed its 64-bit total, and the rows to
      be shown fit the page with the longest lines such counts allow. */
  lemma TrueTopIff(hash: Hash, m: nat, n: nat, bound: nat, memoryFails: bool)
    requires m <= MAX_ROUTES  // there are no more routes
    requires bound >= 2       // below, all routes carry the same
    ensures n == 0 || m == 0 || (!memoryFails && m <= MAX_TOP_ADDRS
              && (m == 1 || (bound < WORD64 && Min(n, m) * LongestLine(bound) <= PAGE_SIZE)))
       <==> AlwaysShown(hash, m, n, bound, memoryFails)
  {
    ChosenIff(hash, m, n, bound, memoryFails);
    if !Choosable(m, n, bound, memoryFails) {
      var calls, top :| Setting(calls, m, bound, memoryFails)
        && IsTop(top, Collected(Run(hash, calls)), n) && !Busiest(top, calls, n);
      assert !PageShowsBusiest(top, calls, n);
    } else if n == 0 || m == 0 || FitsAnyway(m, n, bound) {
      ShownWithin(hash, m, n, bound, memoryFails);
    } else {
      CutNotShown(hash, m, n, bound, memoryFails);
    }
  }

  /** For counts of any size that does not wrap, the page is long enough for 53
      rows: from 11 * 10^18 bytes a route on, its longest line has 76 characters. */
  lemma LargeCounts(m: nat, n: nat, bound: nat)
    requires 11_000_000_000_000_000_000 <= bound < WORD64
    ensures LongestLine(bound) == 76
    ensures Min(n, m) * LongestLine(bound) <= PAGE_SIZE <==> n <= 53 || m <= 53
  {
    assert Pow10(4) == 10000;
    assert Pow10(8) == 1_0000_0000;
    assert Pow10(12) == 1_0000_0000_0000;
    assert Pow10(16) == 1_0000_0000_0000_0000;
    assert Pow10(18) == 100_0000_0000_0000_0000;
    assert Pow10(19) == 1000_0000_0000_0000_0000;
    DecimalLongerThan(bound, 19);
    Word64Digits(bound);
    DecimalLongerThan(bound - Pow10(19), 18);
    DecimalLength(bound - Pow10(19), 19);
  }
}

/**
 Choosing the rows of the report: when those are what the documentation
 promises, the N routes with the most traffic, measured by all bytes ever
 recorded and not by the module's own 64-bit counters.
 */
module BusiestRoutes {
  import opened Text
  import opened ReportText
  import opened TrafficTable
  import opened TopTraffic
  import opened Maps

  // ---- the promise

  ghost function Routes(calls: seq<Transfer>): set<Key> {
    set c | c in calls :: KeyOfTransfer(c)
  }

  /** All bytes of a route in both directions, as an unbounded sum. */
  function Traffic(calls: seq<Transfer>, key: Key): nat {
    Total(calls, key, false) + Total(calls, key, true)
  }

  /** The rows are n different routes, or all there are, the busier ones first,
      and no route left out is busier than one of them. */
  ghost predicate Busiest(top: seq<Row>, calls: seq<Transfer>, n: nat) {
    var keys, routes := Map(KeyOf, top), Routes(calls);
    && |keys| == (if n < |routes| then n else |routes|)
    && NoDuplicates(keys)
    && (forall key | key in keys :: key in routes)
    && (forall i: nat, j: nat | i < j < |keys| :: Traffic(calls, keys[i]) >= Traffic(calls, keys[j]))
    && (forall kept, left | kept in keys && left in routes && left !in keys ::
          Traffic(calls, left) <= Traffic(calls, kept))
  }

  /** A call the probes make: neither address is zero, some bytes were moved,
      and a received count is a positive C int. */
  predicate Probed(c: Transfer) {
    && c.saddr != Ipv4(0, 0, 0, 0) && c.daddr != Ipv4(0, 0, 0, 0)
    && 0 < c.bytes && (!c.isSend ==> c.bytes < 0x8000_0000)
  }

  /** Calls on m routes of at most `bound` bytes each. */
  ghost predicate Setting(calls: seq<Transfer>, m: nat, bound: nat, memoryFails: bool) {
    && (forall c | c in calls :: Probed(c) && (memoryFails || c.memory))
    && |Routes(calls)| == m
    && forall key: Key :: Traffic(calls, key) <= bound
  }

  // ---- rows and routes

  predicate MemoryKept(calls: seq<Transfer>) {
    forall c | c in calls :: c.memory
  }

  lemma VisitedRow(hash: Hash, calls: seq<Transfer>, row: Row)
    requires MemoryKept(calls)
    ensures row in Flatten(Run(hash, calls))
       <==> KeyOf(row) in Routes(calls) && Counters(row.recv, row.send) == Sums(calls, KeyOf(row))
  {
    RunWellKept(hash, calls);
    FlattenedLookup(Run(hash, calls), hash, row);
    NothingLost(hash, calls, KeyOf(row));
  }

  /** The row the table keeps for a route. */
  function RowFor(calls: seq<Transfer>, key: Key): Row {
    Row(key.0, key.1, Total(calls, key, false) % WORD64, Total(calls, key, true) % WORD64)
  }

  lemma VisitedKeys(hash: Hash, calls: seq<Transfer>)
    requires MemoryKept(calls)
    ensures var rows := Flatten(Run(hash, calls));
      && DistinctKeys(rows) && |rows| == |Routes(calls)|
      && (forall row | row in rows :: KeyOf(row) in Routes(calls) && row == RowFor(calls, KeyOf(row)))
      && (forall key | key in Routes(calls) :: RowFor(calls, key) in rows)
  {
    var rows := Flatten(Run(hash, calls));
    RunWellKept(hash, calls);
    TableKeysDistinct(Run(hash, calls), hash);
    forall row | row in rows
      ensures KeyOf(row) in Routes(calls) && row == RowFor(calls, KeyOf(row))
    {
      VisitedRow(hash, calls, row);
    }
    forall key | key in Routes(calls)
      ensures RowFor(calls, key) in rows
    {
      VisitedRow(hash, calls, RowFor(calls, key));
    }
    var keys := Map(KeyOf, rows);
    NoDuplicatesCard(keys);
    KeysOfRows(rows);
    forall key
      ensures key in keys <==> key in Routes(calls)
    {
      if key in Routes(calls) {
        assert KeyOf(RowFor(calls, key)) == key;
      }
    }
    assert (set key | key in keys) == Routes(calls);
  }

  lemma KeysOfRows(rows: seq<Row>)
    ensures forall row | row in rows :: KeyOf(row) in Map(KeyOf, rows)
    ensures forall key | key in Map(KeyOf, rows) :: exists row :: row in rows && KeyOf(row) == key
  {
    var keys := Map(KeyOf, rows);
    forall row | row in rows
      ensures KeyOf(row) in keys
    {
      var i: nat :| i < |rows| && rows[i] == row;
      assert keys[i] == KeyOf(row);
    }
    forall key | key in keys
      ensures exists row :: row in rows && KeyOf(row) == key
    {
      var i: nat :| i < |keys| && keys[i] == key;
      assert rows[i] in rows;
    }
  }

  // ---- when the promise is kept

  /** The module's totals order the rows as the true ones do. */
  ghost predicate OrderKept(rows: seq<Row>, calls: seq<Transfer>) {
    forall a, b | a in rows && b in rows && TotalBytes(a) >= TotalBytes(b) ::
      Traffic(calls, KeyOf(a)) >= Traffic(calls, KeyOf(b))
  }

  lemma ShownNotLess(hash: Hash, calls: seq<Transfer>, top: seq<Row>, n: nat, kept: Row, left: Key)
    requires MemoryKept(calls) && |Routes(calls)| <= MAX_TOP_ADDRS
    requires IsTop(top, Collected(Run(hash, calls)), n)
    requires kept in top && left in Routes(calls) && left !in Map(KeyOf, top)
    ensures kept == RowFor(calls, KeyOf(kept)) && TotalBytes(kept) >= TotalBytes(RowFor(calls, left))
  {
    VisitedKeys(hash, calls);
    KeysOfRows(top);
    assert KeyOf(RowFor(calls, left)) == left;
    KeptNotLess(top, Flatten(Run(hash, calls)), n, kept, RowFor(calls, left));
  }

  lemma BusiestChosen(hash: Hash, calls: seq<Transfer>, n: nat, top: seq<Row>)
    requires MemoryKept(calls) && |Routes(calls)| <= MAX_TOP_ADDRS
    requires OrderKept(Flatten(Run(hash, calls)), calls)
    requires IsTop(top, Collected(Run(hash, calls)), n)
    ensures Busiest(top, calls, n)
  {
    var t := Run(hash, calls);
    var rows, keys := Flatten(t), Map(KeyOf, top);
    VisitedKeys(hash, calls);
    RunWellKept(hash, calls);
    TopKeys(t, hash, n, top);
    TopMeaning(top, rows, n);
    KeysOfRows(top);
    forall row | row in top
      ensures row in rows
    {
      assert row in multiset(top) && row in multiset(rows);
    }
    forall i: nat, j: nat | i < j < |keys|
      ensures Traffic(calls, keys[i]) >= Traffic(calls, keys[j])
    {
      assert top[i] in rows && top[j] in rows;
    }
    forall kept, left | kept in keys && left in Routes(calls) && left !in keys
      ensures Traffic(calls, left) <= Traffic(calls, kept)
    {
      var row :| row in top && KeyOf(row) == kept;
      ShownNotLess(hash, calls, top, n, row, left);
      assert RowFor(calls, left) in rows && KeyOf(RowFor(calls, left)) == left;
    }
  }

  lemma OrderKeptBelow(hash: Hash, calls: seq<Transfer>)
    requires MemoryKept(calls)
    requires |Routes(calls)| <= 1 || forall key: Key :: Traffic(calls, key) < WORD64
    ensures OrderKept(Flatten(Run(hash, calls)), calls)
  {
    var rows := Flatten(Run(hash, calls));
    VisitedKeys(hash, calls);
    forall a, b | a in rows && b in rows && TotalBytes(a) >= TotalBytes(b)
      ensures Traffic(calls, KeyOf(a)) >= Traffic(calls, KeyOf(b))
    {
      if |Routes(calls)| <= 1 {
        OnlyOne(Routes(calls), KeyOf(a), KeyOf(b));
      } else {
        SmallTotal(calls, KeyOf(a));
        SmallTotal(calls, KeyOf(b));
      }
    }
  }

  lemma OnlyOne<T>(s: set<T>, x: T, y: T)
    requires |s| <= 1 && x in s && y in s
    ensures x == y
  {
    assert x != y ==> |s - {x} - {y}| == |s| - 2;
  }

  lemma SmallTotal(calls: seq<Transfer>, key: Key)
    requires Traffic(calls, key) < WORD64
    ensures TotalBytes(RowFor(calls, key)) == Traffic(calls, key)
  {
  }

  // ---- one call for each of some routes

  function Once(keys: seq<Key>, isSend: bool, bytes: Word, memory: bool): (calls: seq<Transfer>)
    ensures |calls| == |keys|
  {
    seq(|keys|, i requires 0 <= i < |keys| => Transfer(keys[i].0, keys[i].1, isSend, bytes, memory))
  }

  lemma {:induction false} TotalOnce(keys: seq<Key>, isSend: bool, bytes: Word, memory: bool, key: Key, dir: bool)
    requires NoDuplicates(keys)
    ensures Total(Once(keys, isSend, bytes, memory), key, dir)
         == if key in keys && dir == isSend then bytes else 0
  {
    if keys != [] {
      var last := |keys| - 1;
      TotalOnce(keys[..last], isSend, bytes, memory, key, dir);
      assert Once(keys, isSend, bytes, memory)[..last] == Once(keys[..last], isSend, bytes, memory);
      assert keys == keys[..last] + [keys[last]];
    }
  }

  lemma RoutesOnce(keys: seq<Key>, isSend: bool, bytes: Word, memory: bool)
    requires NoDuplicates(keys)
    ensures Routes(Once(keys, isSend, bytes, memory)) == set key | key in keys
    ensures |Routes(Once(keys, isSend, bytes, memory))| == |keys|
  {
    var calls := Once(keys, isSend, bytes, memory);
    forall key | key in keys
      ensures key in Routes(calls)
    {
      var i: nat :| i < |keys| && keys[i] == key;
      assert calls[i] in calls && KeyOfTransfer(calls[i]) == key;
    }
    NoDuplicatesCard(keys);
  }

  lemma {:induction false} TotalAppend(a: seq<Transfer>, b: seq<Transfer>, key: Key, dir: bool)
    ensures Total(a + b, key, dir) == Total(a, key, dir) + Total(b, key, dir)
  {
    if b == [] {
      assert a + b == a;
    } else {
      assert (a + b)[..|a + b| - 1] == a + b[..|b| - 1];
      TotalAppend(a, b[..|b| - 1], key, dir);
    }
  }

  lemma OneMore(calls: seq<Transfer>, c: Transfer)
    requires KeyOfTransfer(c) in Routes(calls)
    ensures Routes(calls + [c]) == Routes(calls)
    ensures forall key, dir :: Total(calls + [c], key, dir)
              == Total(calls, key, dir) + (if KeyOfTransfer(c) == key && c.isSend == dir then c.bytes else 0)
  {
    assert (calls + [c])[..|calls|] == calls;
  }

  // ---- enough routes

  /** The addresses but for 0.0.0.0. */
  const ADDRESSES: nat := 0xFFFF_FFFF

  const MAX_ROUTES: nat := ADDRESSES * ADDRESSES

  /** The i-th address, for i below 2^32, and back. */
  function AddressOf(i: nat): Ipv4 {
    Ipv4(i / 256 / 256 / 256 % 256, i / 256 / 256 % 256, i / 256 % 256, i % 256)
  }

  function NumberOf(ip: Ipv4): nat {
    ((ip.b0 * 256 + ip.b1) * 256 + ip.b2) * 256 + ip.b3
  }

  lemma NumberOfAddress(i: nat)
    requires i < 0x1_0000_0000
    ensures NumberOf(AddressOf(i)) == i
  {
  }

  function RouteAt(i: nat): Key {
    (AddressOf(i / ADDRESSES + 1), AddressOf(i % ADDRESSES + 1))
  }

  lemma RouteNumber(i: nat)
    requires i < MAX_ROUTES
    ensures NumberOf(RouteAt(i).0) == i / ADDRESSES + 1
    ensures NumberOf(RouteAt(i).1) == i % ADDRESSES + 1
  {
    NumberOfAddress(i / ADDRESSES + 1);
    NumberOfAddress(i % ADDRESSES + 1);
  }

  function SomeRoutes(m: nat): (keys: seq<Key>)
    ensures |keys| == m
  {
    seq(m, i requires 0 <= i < m => RouteAt(i))
  }

  lemma SomeRoutesDistinct(m: nat)
    requires m <= MAX_ROUTES
    ensures NoDuplicates(SomeRoutes(m))
    ensures forall key | key in SomeRoutes(m) :: key.0 != Ipv4(0, 0, 0, 0) && key.1 != Ipv4(0, 0, 0, 0)
  {
    var keys := SomeRoutes(m);
    forall i: nat | i < m
      ensures NumberOf(keys[i].0) * ADDRESSES + NumberOf(keys[i].1) == i + ADDRESSES + 1
      ensures NumberOf(keys[i].0) > 0 && NumberOf(keys[i].1) > 0
    {
      RouteNumber(i);
    }
  }

  /** One received byte for each of m routes. */
  ghost predicate OneByteEach(calls: seq<Transfer>, m: nat) {
    && Setting(calls, m, 1, false)
    && forall key: Key, dir: bool :: Total(calls, key, dir) == if key in Routes(calls) && !dir then 1 else 0
  }

  /** m calls on as many routes, with memory at all of them or at none. */
  lemma OnceEach(m: nat, memory: bool) returns (calls: seq<Transfer>)
    requires m <= MAX_ROUTES
    ensures |calls| == m && Setting(calls, m, 1, !memory)
    ensures forall c | c in calls :: c.memory == memory
    ensures memory ==> OneByteEach(calls, m)
  {
    var keys := SomeRoutes(m);
    SomeRoutesDistinct(m);
    calls := Once(keys, false, 1, memory);
    RoutesOnce(keys, false, 1, memory);
    forall key, dir
      ensures Total(calls, key, dir) == if key in keys && !dir then 1 else 0
    {
      TotalOnce(keys, false, 1, memory, key, dir);
    }
    forall c | c in calls
      ensures Probed(c) && c.memory == memory
    {
      var i: nat :| i < |calls| && calls[i] == c;
      assert keys[i] in keys;
    }
  }

  /** ... and then some more bytes for one of them. */
  lemma ThenMore(once: seq<Transfer>, m: nat, busy: Key, isSend: bool, bytes: Word) returns (c: Transfer)
    requires OneByteEach(once, m) && busy in Routes(once)
    requires 0 < bytes && (!isSend ==> bytes < 0x8000_0000)
    ensures c == Transfer(busy.0, busy.1, isSend, bytes, true)
    ensures Setting(once + [c], m, 1 + bytes, false) && Routes(once + [c]) == Routes(once)
    ensures forall key, dir :: Total(once + [c], key, dir)
              == Total(once, key, dir) + (if key == busy && dir == isSend then bytes else 0)
    ensures forall key | key in Routes(once) :: Traffic(once + [c], key) == if key == busy then 1 + bytes else 1
  {
    c := Transfer(busy.0, busy.1, isSend, bytes, true);
    var d :| d in once && KeyOfTransfer(d) == busy;
    assert Probed(d);
    OneMore(once, c);
    forall key: Key
      ensures Traffic(once + [c], key) <= 1 + bytes
    {
    }
  }

  // ---- when it is broken

  /** Recording more traffic of a known route leaves the rows where they are. */
  lemma SameOrder(t: Table, hash: Hash, c: Transfer)
    requires Lookup(t, hash, KeyOfTransfer(c)).Counters?
    ensures Map(KeyOf, Flatten(RecordStep(t, hash, c))) == Map(KeyOf, Flatten(t))
  {
    var u := RecordStep(t, hash, c);
    forall b: nat | b < BUCKETS
      ensures Map(KeyOf, u[b]) == Map(KeyOf, t[b])
    {
    }
    SameKeys(t, u);
  }

  lemma {:induction false} SameKeys(t: seq<seq<Row>>, u: seq<seq<Row>>)
    requires |t| == |u| && forall b: nat | b < |t| :: Map(KeyOf, u[b]) == Map(KeyOf, t[b])
    ensures Map(KeyOf, Flatten(u)) == Map(KeyOf, Flatten(t))
  {
    if t != [] {
      var last := |t| - 1;
      SameKeys(t[..last], u[..last]);
      MapAppend(KeyOf, Flatten(t[..last]), t[last]);
      MapAppend(KeyOf, Flatten(u[..last]), u[last]);
    }
  }

  lemma LastVisitedHidden(hash: Hash, calls: seq<Transfer>, c: Transfer)
    requires MemoryKept(calls) && |Routes(calls)| > MAX_TOP_ADDRS
    requires var rows := Flatten(Run(hash, calls)); rows != [] && KeyOf(rows[|rows| - 1]) == KeyOfTransfer(c)
    ensures KeyOfTransfer(c) !in Map(KeyOf, Collected(Run(hash, calls + [c])))
  {
    var before, after := Flatten(Run(hash, calls)), Flatten(Run(hash, calls + [c]));
    var last := |before| - 1;
    var keys := Map(KeyOf, before);
    assert NoDuplicates(keys) && keys[last] == KeyOfTransfer(c) && last >= MAX_TOP_ADDRS
           && KeyOfTransfer(c) in Routes(calls) by {
      VisitedKeys(hash, calls);
      assert before[last] in before;
    }
    assert Map(KeyOf, after) == keys by {
      NothingLost(hash, calls, KeyOfTransfer(c));
      assert (calls + [c])[..|calls|] == calls;
      SameOrder(Run(hash, calls), hash, c);
    }
    MapPrefix(KeyOf, after, MAX_TOP_ADDRS);
  }

  lemma LastVisited(hash: Hash, calls: seq<Transfer>) returns (key: Key)
    requires MemoryKept(calls) && |Routes(calls)| > 0
    ensures var rows := Flatten(Run(hash, calls)); rows != [] && key == KeyOf(rows[|rows| - 1])
    ensures key in Routes(calls)
  {
    var rows := Flatten(Run(hash, calls));
    VisitedKeys(hash, calls);
    assert rows[|rows| - 1] in rows;
    key := KeyOf(rows[|rows| - 1]);
  }

  /** More routes than slots: one byte for each, and a second one for the route
      the module visits last, which the report then never shows. */
  lemma BusyRouteMissed(hash: Hash, m: nat) returns (calls: seq<Transfer>, busy: Key)
    requires MAX_TOP_ADDRS < m <= MAX_ROUTES
    ensures Setting(calls, m, 2, false) && busy in Routes(calls)
    ensures forall key | key in Routes(calls) :: Traffic(calls, key) == if key == busy then 2 else 1
    ensures busy !in Map(KeyOf, Collected(Run(hash, calls)))
  {
    var once := OnceEach(m, true);
    busy := LastVisited(hash, once);
    var c := ThenMore(once, m, busy, false, 1);
    calls := once + [c];
    LastVisitedHidden(hash, once, c);
  }

  /** Two routes or more: one byte received on each, and 2^64-1 sent on one of
      them, as an error code taken for a byte count is.  Its 64-bit total is 0. */
  lemma BusyRouteWraps(m: nat) returns (calls: seq<Transfer>, busy: Key)
    requires 2 <= m <= MAX_ROUTES
    ensures Setting(calls, m, WORD64, false) && busy in Routes(calls)
    ensures forall key | key in Routes(calls) ::
              && Traffic(calls, key) == (if key == busy then WORD64 else 1)
              && TotalBytes(RowFor(calls, key)) == if key == busy then 0 else 1
  {
    var once := OnceEach(m, true);
    busy := KeyOfTransfer(once[0]);
    assert once[0] in once;
    var c := ThenMore(once, m, busy, true, WORD64 - 1);
    calls := once + [c];
  }

  /** No memory: nothing is recorded. */
  lemma {:induction false} NothingRecorded(hash: Hash, calls: seq<Transfer>)
    requires forall c | c in calls :: !c.memory
    ensures Run(hash, calls) == Empty()
  {
    if calls != [] {
      NothingRecorded(hash, calls[..|calls| - 1]);
    }
  }

  lemma FlattenEmpty(k: nat)
    requires k <= BUCKETS
    ensures Flatten(Empty()[..k]) == []
  {
    if k > 0 {
      FlattenEmpty(k - 1);
      assert Empty()[..k][..k - 1] == Empty()[..k - 1];
    }
  }

  /** A route of the calls that carries more than any other. */
  ghost predicate OneBusiest(calls: seq<Transfer>, busy: Key) {
    && busy in Routes(calls)
    && forall key | key in Routes(calls) && key != busy :: Traffic(calls, key) < Traffic(calls, busy)
  }

  lemma MissedNotBusiest(hash: Hash, m: nat, n: nat) returns (calls: seq<Transfer>, busy: Key)
    requires n > 0 && MAX_TOP_ADDRS < m <= MAX_ROUTES
    ensures Setting(calls, m, 2, false) && OneBusiest(calls, busy)
    ensures forall top | IsTop(top, Collected(Run(hash, calls)), n) ::
              busy !in Map(KeyOf, top) && !Busiest(top, calls, n)
  {
    calls, busy := BusyRouteMissed(hash, m);
    var rows := Collected(Run(hash, calls));
    VisitedKeys(hash, calls);
    forall top | IsTop(top, rows, n)
      ensures busy !in Map(KeyOf, top) && !Busiest(top, calls, n)
    {
      TopMeaning(top, rows, n);
      var keys := Map(KeyOf, top);
      assert busy !in keys by {
        KeysOfRows(top);
        KeysOfRows(rows);
        forall row | row in top
          ensures row in rows
        {
          assert row in multiset(top) && row in multiset(rows);
        }
      }
      if Busiest(top, calls, n) {
        BusiestFirst(top, calls, n, busy);
      }
    }
  }

  lemma WrappedNotBusiest(hash: Hash, m: nat, n: nat) returns (calls: seq<Transfer>, busy: Key)
    requires n > 0 && 2 <= m <= MAX_TOP_ADDRS
    ensures Setting(calls, m, WORD64, false) && OneBusiest(calls, busy)
    ensures forall top | IsTop(top, Collected(Run(hash, calls)), n) ::
              (n < m ==> busy !in Map(KeyOf, top)) && !Busiest(top, calls, n)
  {
    calls, busy := BusyRouteWraps(m);
    var rows := Flatten(Run(hash, calls));
    VisitedKeys(hash, calls);
    var other :| other in Routes(calls) && other != busy by {
      assert |Routes(calls) - {busy}| > 0;
    }
    forall top | IsTop(top, rows, n)
      ensures (n < m ==> busy !in Map(KeyOf, top)) && !Busiest(top, calls, n)
    {
      SmallerNotFirst(hash, calls, top, n, busy, other);
      if Busiest(top, calls, n) {
        BusiestFirst(top, calls, n, busy);
      }
      if n < m {
        SmallestNotShown(hash, calls, top, n, busy);
      }
    }
  }

  /** Shown rightly, a route busier than all others is in the first row ... */
  lemma BusiestFirst(top: seq<Row>, calls: seq<Transfer>, n: nat, busy: Key)
    requires Busiest(top, calls, n) && n > 0 && OneBusiest(calls, busy)
    ensures top != [] && KeyOf(top[0]) == busy && busy in Map(KeyOf, top)
  {
    var keys := Map(KeyOf, top);
    assert |Routes(calls)| > 0;
    assert keys[0] in keys;
    if busy in keys {
      var i: nat :| i < |keys| && keys[i] == busy;
    }
  }

  /** ... but one whose 64-bit total is smaller than another's is not. */
  lemma SmallerNotFirst(hash: Hash, calls: seq<Transfer>, top: seq<Row>, n: nat, busy: Key, other: Key)
    requires MemoryKept(calls) && busy in Routes(calls) && other in Routes(calls)
    requires IsTop(top, Flatten(Run(hash, calls)), n) && n > 0
    requires TotalBytes(RowFor(calls, other)) > TotalBytes(RowFor(calls, busy))
    ensures top != [] && KeyOf(top[0]) != busy
  {
    VisitedKeys(hash, calls);
    LargestShown(top, Flatten(Run(hash, calls)), n, RowFor(calls, other));
  }

  /** The route with the smallest 64-bit total is not shown unless all are. */
  lemma SmallestNotShown(hash: Hash, calls: seq<Transfer>, top: seq<Row>, n: nat, busy: Key)
    requires MemoryKept(calls) && n < |Routes(calls)| <= MAX_TOP_ADDRS
    requires IsTop(top, Collected(Run(hash, calls)), n)
    requires forall key | key in Routes(calls) && key != busy ::
               TotalBytes(RowFor(calls, key)) > TotalBytes(RowFor(calls, busy))
    ensures busy !in Map(KeyOf, top)
  {
    TopMeaning(top, Collected(Run(hash, calls)), n);
    KeysOfRows(top);
    var left := LeftOut(Routes(calls), Map(KeyOf, top));
    forall kept | kept in top
      ensures KeyOf(kept) != busy
    {
      ShownNotLess(hash, calls, top, n, kept, left);
    }
  }

  lemma LeftOut<T>(s: set<T>, t: seq<T>) returns (x: T)
    requires |t| < |s|
    ensures x in s && x !in t
  {
    if forall x | x in s :: x in t {
      SetInSeq(s, t);
    }
    x :| x in s && x !in t;
  }

  lemma {:induction false} SetInSeq<T>(s: set<T>, t: seq<T>)
    requires forall x | x in s :: x in t
    ensures |s| <= |t|
  {
    if t != [] {
      SetInSeq(s - {t[0]}, t[1..]);
      assert |s - {t[0]}| >= |s| - 1;
    }
  }

  /** Without memory the report is empty, which is wrong once there is a call. */
  lemma ForgottenNotBusiest(hash: Hash, m: nat, n: nat) returns (calls: seq<Transfer>)
    requires n > 0 && 0 < m <= MAX_ROUTES
    ensures Setting(calls, m, 1, true)
    ensures forall top | IsTop(top, Collected(Run(hash, calls)), n) :: !Busiest(top, calls, n)
  {
    calls := OnceEach(m, false);
    NothingRecorded(hash, calls);
    FlattenEmpty(BUCKETS);
    assert Empty()[..BUCKETS] == Empty();
    forall top | IsTop(top, [], n)
      ensures !Busiest(top, calls, n)
    {
      TopMeaning(top, [], n);
    }
  }

  predicate Choosable(m: nat, n: nat, bound: nat, memoryFails: bool) {
    n == 0 || m == 0 || (!memoryFails && m <= MAX_TOP_ADDRS && (m == 1 || bound < WORD64))
  }

  ghost predicate AlwaysChosen(hash: Hash, m: nat, n: nat, bound: nat, memoryFails: bool) {
    forall calls, top | Setting(calls, m, bound, memoryFails) && IsTop(top, Collected(Run(hash, calls)), n) ::
      Busiest(top, calls, n)
  }

  lemma NotChosen(hash: Hash, m: nat, n: nat, bound: nat, memoryFails: bool, calls: seq<Transfer>)
    requires Setting(calls, m, bound, memoryFails)
    requires forall top | IsTop(top, Collected(Run(hash, calls)), n) :: !Busiest(top, calls, n)
    ensures !AlwaysChosen(hash, m, n, bound, memoryFails)
  {
    var rows := Collected(Run(hash, calls));
    var ranked := RankingExists(rows);
    assert IsTop(Take(ranked, n), rows, n);
  }

  lemma ChosenWithin(hash: Hash, m: nat, n: nat, bound: nat, memoryFails: bool)
    requires Choosable(m, n, bound, memoryFails)
    ensures AlwaysChosen(hash, m, n, bound, memoryFails)
  {
    forall calls, top | Setting(calls, m, bound, memoryFails) && IsTop(top, Collected(Run(hash, calls)), n)
      ensures Busiest(top, calls, n)
    {
      if n == 0 {
        TopMeaning(top, Collected(Run(hash, calls)), n);
      } else {
        assert m == 0 ==> calls == [] by {
          if calls != [] {
            assert KeyOfTransfer(calls[0]) in Routes(calls);
          }
        }
        OrderKeptBelow(hash, calls);
        BusiestChosen(hash, calls, n, top);
      }
    }
  }

  /** The selection step.  Whatever is recorded on m routes of at most `bound`
      bytes each, and however the sort leaves equal totals, the rows chosen for
      printing are the n busiest if and only if memory is never short, the m
      routes fit the slots they are collected in, and no route's bytes can exceed
      its 64-bit total. */
  lemma ChosenIff(hash: Hash, m: nat, n: nat, bound: nat, memoryFails: bool)
    requires m <= MAX_ROUTES  // there are no more routes
    requires bound >= 2       // below, all routes carry the same
    ensures Choosable(m, n, bound, memoryFails)
       <==> AlwaysChosen(hash, m, n, bound, memoryFails)
  {
    if Choosable(m, n, bound, memoryFails) {
      ChosenWithin(hash, m, n, bound, memoryFails);
    } else {
      var calls, busy;
      if memoryFails {
        calls := ForgottenNotBusiest(hash, m, n);
      } else if m > MAX_TOP_ADDRS {
        calls, busy := MissedNotBusiest(hash, m, n);
      } else {
        calls, busy := WrappedNotBusiest(hash, m, n);
      }
      NotChosen(hash, m, n, bound, memoryFails, calls);
    }
  }
}

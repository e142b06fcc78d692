/**
 The per-route traffic counters as a value: a chained hash table of rows, and
 what one recorded transfer does to it (final_work_kprobe, stats.c).
 */
module TrafficTable {
  import opened Text
  import opened ReportText

  const BUCKETS: nat := 256

  type Bucket = b: nat | b < BUCKETS

  type Key = (Ipv4, Ipv4)

  /** The kernel's hash of the 64-bit key: any function into the buckets. */
  type Hash = Key -> Bucket

  type Table = t: seq<seq<Row>> | |t| == BUCKETS witness seq(BUCKETS, _ => [])

  datatype Transfer = Transfer(saddr: Ipv4, daddr: Ipv4, isSend: bool, bytes: Word, memory: bool)

  function KeyOf(row: Row): Key {
    (row.saddr, row.daddr)
  }

  function KeyOfTransfer(c: Transfer): Key {
    (c.saddr, c.daddr)
  }

  function AddWord(a: Word, b: Word): Word {
    (a + b) % WORD64
  }

  function Added(row: Row, isSend: bool, bytes: Word): Row {
    if isSend then row.(send := AddWord(row.send, bytes)) else row.(recv := AddWord(row.recv, bytes))
  }

  function NewRow(c: Transfer): Row {
    Row(c.saddr, c.daddr, if c.isSend then 0 else c.bytes, if c.isSend then c.bytes else 0)
  }

  /** The first row of the key in a chain, the chain's length when there is none. */
  function Find(chain: seq<Row>, key: Key): (i: nat)
    ensures i <= |chain|
    ensures i < |chain| ==> KeyOf(chain[i]) == key
    ensures forall j: nat | j < i :: KeyOf(chain[j]) != key
  {
    if chain == [] || KeyOf(chain[0]) == key then 0 else 1 + Find(chain[1..], key)
  }

  function RecordChain(chain: seq<Row>, c: Transfer): seq<Row> {
    var i := Find(chain, KeyOfTransfer(c));
    if i < |chain| then chain[i := Added(chain[i], c.isSend, c.bytes)]
    else if c.memory then [NewRow(c)] + chain
    else chain
  }

  /** One call of stats_record_traffic. */
  function RecordStep(t: Table, hash: Hash, c: Transfer): Table {
    var b := hash(KeyOfTransfer(c));
    t[b := RecordChain(t[b], c)]
  }

  function Empty(): Table {
    seq(BUCKETS, _ => [])
  }

  function Run(hash: Hash, calls: seq<Transfer>): Table {
    if calls == [] then Empty()
    else RecordStep(Run(hash, calls[..|calls| - 1]), hash, calls[|calls| - 1])
  }

  lemma RunNext(hash: Hash, calls: seq<Transfer>, i: nat)
    requires i < |calls|
    ensures Run(hash, calls[..i + 1]) == RecordStep(Run(hash, calls[..i]), hash, calls[i])
  {
    assert calls[..i + 1][..i] == calls[..i];
  }

  // ---- one row a key, in its own bucket

  predicate DistinctKeys(chain: seq<Row>) {
    forall i: nat, j: nat | i < j < |chain| :: KeyOf(chain[i]) != KeyOf(chain[j])
  }

  predicate Hashed(chain: seq<Row>, hash: Hash, b: nat) {
    forall i: nat | i < |chain| :: hash(KeyOf(chain[i])) == b
  }

  predicate WellKept(t: Table, hash: Hash) {
    forall b: nat | b < BUCKETS :: Hashed(t[b], hash, b) && DistinctKeys(t[b])
  }

  lemma RecordChainKept(chain: seq<Row>, hash: Hash, c: Transfer)
    requires Hashed(chain, hash, hash(KeyOfTransfer(c))) && DistinctKeys(chain)
    ensures Hashed(RecordChain(chain, c), hash, hash(KeyOfTransfer(c)))
    ensures DistinctKeys(RecordChain(chain, c))
  {
    var r := RecordChain(chain, c);
    var i := Find(chain, KeyOfTransfer(c));
    if i < |chain| {
      assert forall j: nat | j < |r| :: KeyOf(r[j]) == KeyOf(chain[j]);
    } else if c.memory {
      assert forall j: nat | 0 < j < |r| :: r[j] == chain[j - 1];
    }
  }

  lemma {:induction false} RunWellKept(hash: Hash, calls: seq<Transfer>)
    ensures WellKept(Run(hash, calls), hash)
  {
    if calls != [] {
      var before, c := calls[..|calls| - 1], calls[|calls| - 1];
      RunWellKept(hash, before);
      RecordChainKept(Run(hash, before)[hash(KeyOfTransfer(c))], hash, c);
    }
  }

  // ---- the table is a map from routes to counters

  datatype Counters = Absent | Counters(recv: Word, send: Word)

  function CountersIn(chain: seq<Row>, key: Key): Counters {
    var i := Find(chain, key);
    if i < |chain| then Counters(chain[i].recv, chain[i].send) else Absent
  }

  function Lookup(t: Table, hash: Hash, key: Key): Counters {
    CountersIn(t[hash(key)], key)
  }

  /** Every row of a well-kept table is what its key looks up. */
  lemma RowIsLookup(t: Table, hash: Hash, b: nat, i: nat)
    requires WellKept(t, hash) && b < BUCKETS && i < |t[b]|
    ensures Lookup(t, hash, KeyOf(t[b][i])) == Counters(t[b][i].recv, t[b][i].send)
  {
    var j := Find(t[b], KeyOf(t[b][i]));
    assert j <= i;
  }

  /** What a transfer does to the counters of one route, with no table in sight. */
  function CounterStep(before: Counters, key: Key, c: Transfer): Counters {
    if KeyOfTransfer(c) != key then before
    else if before.Absent? && !c.memory then Absent
    else
      var recv, send := if before.Absent? then 0 else before.recv, if before.Absent? then 0 else before.send;
      if c.isSend then Counters(recv, AddWord(send, c.bytes)) else Counters(AddWord(recv, c.bytes), send)
  }

  lemma RecordCounters(chain: seq<Row>, key: Key, c: Transfer)
    ensures CountersIn(RecordChain(chain, c), key) == CounterStep(CountersIn(chain, key), key, c)
  {
    var r := RecordChain(chain, c);
    var i, k := Find(chain, KeyOfTransfer(c)), Find(chain, key);
    if i < |chain| {
      assert forall j: nat | j < |r| :: KeyOf(r[j]) == KeyOf(chain[j]);
      assert Find(r, key) == k;
    } else if c.memory {
      assert r[1..] == chain;
    }
  }

  /** Refinement: whatever the hash, recording in the table is recording in a map. */
  lemma RecordRefines(t: Table, hash: Hash, c: Transfer, key: Key)
    ensures Lookup(RecordStep(t, hash, c), hash, key) == CounterStep(Lookup(t, hash, key), key, c)
  {
    RecordCounters(t[hash(key)], key, c);
  }

  // ---- the counters after any calls

  /** Bytes of one route in one direction, as an unbounded sum. */
  function Total(calls: seq<Transfer>, key: Key, isSend: bool): nat {
    if calls == [] then 0
    else
      var c := calls[|calls| - 1];
      Total(calls[..|calls| - 1], key, isSend)
      + if KeyOfTransfer(c) == key && c.isSend == isSend then c.bytes else 0
  }

  /** The first call for the route that found memory for its entry. */
  function FirstKept(calls: seq<Transfer>, key: Key): (f: nat)
    ensures f <= |calls|
    ensures f < |calls| ==> KeyOfTransfer(calls[f]) == key && calls[f].memory
    ensures forall i: nat | i < f :: KeyOfTransfer(calls[i]) == key ==> !calls[i].memory
  {
    if calls == [] || (KeyOfTransfer(calls[0]) == key && calls[0].memory) then 0
    else 1 + FirstKept(calls[1..], key)
  }

  lemma FirstKeptSnoc(calls: seq<Transfer>, key: Key, c: Transfer)
    ensures var f := FirstKept(calls, key);
      FirstKept(calls + [c], key)
      == if f < |calls| || (KeyOfTransfer(c) == key && c.memory) then f else |calls| + 1
  {
    var f, g := FirstKept(calls, key), FirstKept(calls + [c], key);
    if f < |calls| {
      assert (calls + [c])[f] == calls[f];
      assert g <= f;
      assert (calls + [c])[g] == calls[g];
    } else {
      assert forall i: nat | i < |calls| :: (calls + [c])[i] == calls[i];
      assert (calls + [c])[|calls|] == c;
    }
  }

  /** The sums of both directions over some calls, modulo 2^64. */
  function Sums(calls: seq<Transfer>, key: Key): Counters {
    Counters(Total(calls, key, false) % WORD64, Total(calls, key, true) % WORD64)
  }

  /** What a route's counters should be: nothing before the first call that
      finds memory, and the sums of all its calls from that one on. */
  function History(calls: seq<Transfer>, key: Key): Counters {
    var f := FirstKept(calls, key);
    if f == |calls| then Absent else Sums(calls[f..], key)
  }

  lemma AddModulo(a: nat, b: Word)
    ensures AddWord(a % WORD64, b) == (a + b) % WORD64
  {
  }

  lemma SumsSnoc(calls: seq<Transfer>, key: Key, c: Transfer)
    ensures CounterStep(Sums(calls, key), key, c) == Sums(calls + [c], key)
  {
    assert (calls + [c])[..|calls|] == calls;
    AddModulo(Total(calls, key, false), c.bytes);
    AddModulo(Total(calls, key, true), c.bytes);
  }

  lemma HistoryStep(calls: seq<Transfer>, key: Key, c: Transfer)
    ensures CounterStep(History(calls, key), key, c) == History(calls + [c], key)
  {
    FirstKeptSnoc(calls, key, c);
    var f := FirstKept(calls, key);
    if f < |calls| {
      SumsSnoc(calls[f..], key, c);
      assert (calls + [c])[f..] == calls[f..] + [c];
    } else if KeyOfTransfer(c) == key && c.memory {
      assert Sums([], key) == Counters(0, 0);
      SumsSnoc([], key, c);
      assert (calls + [c])[f..] == [] + [c];
    }
  }

  /** After any calls, with memory failing at any of them and whatever the
      hash, every route's counters are those of its history. */
  lemma {:induction false} CountersAreSums(hash: Hash, calls: seq<Transfer>, key: Key)
    ensures Lookup(Run(hash, calls), hash, key) == History(calls, key)
    decreases |calls|
  {
    if calls != [] {
      var before, c := calls[..|calls| - 1], calls[|calls| - 1];
      assert calls == before + [c];
      CountersAreSums(hash, before, key);
      RecordRefines(Run(hash, before), hash, c, key);
      HistoryStep(before, key, c);
    }
  }

  /** With memory never short, every call counts. */
  lemma NothingLost(hash: Hash, calls: seq<Transfer>, key: Key)
    requires forall c | c in calls :: c.memory
    ensures Lookup(Run(hash, calls), hash, key)
         == if exists c :: c in calls && KeyOfTransfer(c) == key then Sums(calls, key) else Absent
  {
    CountersAreSums(hash, calls, key);
    var f := FirstKept(calls, key);
    if f < |calls| {
      assert calls[f] in calls;
    }
    NoneBefore(calls, key, f);
  }

  lemma {:induction false} NoneBefore(calls: seq<Transfer>, key: Key, f: nat)
    requires f <= |calls| && forall i: nat | i < f :: KeyOfTransfer(calls[i]) != key
    ensures forall isSend: bool :: Total(calls, key, isSend) == Total(calls[f..], key, isSend)
    decreases |calls|
  {
    if f < |calls| {
      var last := |calls| - 1;
      NoneBefore(calls[..last], key, f);
      assert calls[f..][..|calls[f..]| - 1] == calls[..last][f..];
    } else if f > 0 {
      NoneBefore(calls[..f - 1], key, f - 1);
      assert calls[f..] == calls[..f - 1][f - 1..] == [];
    }
  }
}

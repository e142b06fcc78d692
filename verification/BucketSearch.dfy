/**
 The HW_06 module: 64 chained buckets of numbers, searched by sorting a copy of
 one bucket and binary-searching it, and printed bucket by bucket.
 */
module BucketSearch {
  import opened Text
  import opened Buffer
  import opened Maps
  import opened Reading
  import Sorting

  const BS_OK := 0
  const BS_INVALID := -22
  const BS_NOMEM := -12
  const BS_NOT_FOUND := -2

  const HASH_TABLE_SIZE: nat := 64

  type Unsigned = n: nat | n < 0x1_0000_0000
  type Bucket = b: nat | b < HASH_TABLE_SIZE

  /** hash_min(value, 6): any function into the buckets. */
  type Hash = Unsigned -> Bucket

  /** An entry never changes once it is in the table. */
  datatype HashEntry = HashEntry(value: Unsigned)

  function NewEntry(value: Unsigned): HashEntry {
    HashEntry(value)
  }

  type Table = t: seq<seq<HashEntry>> | |t| == HASH_TABLE_SIZE witness seq(HASH_TABLE_SIZE, _ => [])

  // ---- the table as a value

  function EmptyTable(): Table {
    seq(HASH_TABLE_SIZE, _ => [])
  }

  /** hash_add puts a new entry at the head of its chain. */
  function Insert(t: Table, hash: Hash, value: Unsigned): Table {
    t[hash(value) := [NewEntry(value)] + t[hash(value)]]
  }

  function InsertAll(t: Table, hash: Hash, values: seq<Unsigned>): Table {
    if values == [] then t
    else Insert(InsertAll(t, hash, values[..|values| - 1]), hash, values[|values| - 1])
  }

  /** What one build inserts: random numbers reduced below the array size. */
  function Drawn(random: seq<Unsigned>, size: Unsigned): (values: seq<Unsigned>)
    ensures |values| == |random|
    ensures size > 0 ==> forall v | v in values :: v < size
  {
    seq(|random|, i requires 0 <= i < |random| => if size == 0 then 0 else random[i] % size)
  }

  predicate Leaves(n: nat, size: nat, k: nat, v: nat) {
    n == k * size + v && v < size
  }

  /** v is what n leaves when divided by the size. */
  ghost predicate IsRemainder(n: nat, size: nat, v: nat) {
    exists k: nat :: Leaves(n, size, k, v)
  }

  /** Every number drawn is the remainder of its random number. */
  lemma DrawnAreRemainders(random: seq<Unsigned>, size: Unsigned)
    requires size > 0
    ensures |Drawn(random, size)| == |random|
    ensures forall i: nat | i < |random| :: IsRemainder(random[i], size, Drawn(random, size)[i])
  {
    forall i: nat | i < |random|
      ensures IsRemainder(random[i], size, Drawn(random, size)[i])
    {
      assert random[i] as int == size * (random[i] / size) + random[i] % size;
      assert Leaves(random[i], size, random[i] / size, random[i] % size);
    }
  }

  lemma {:induction false} QuotientGap(size: nat, k: nat, l: nat)
    requires k < l
    ensures k * size + size <= l * size
  {
    assert l * size == (l - 1) * size + size;
    if k < l - 1 {
      QuotientGap(size, k, l - 1);
    }
  }

  /** A number leaves only one remainder. */
  lemma RemainderUnique(n: nat, size: nat, v: nat, w: nat)
    requires IsRemainder(n, size, v) && IsRemainder(n, size, w)
    ensures v == w
  {
    var k: nat :| Leaves(n, size, k, v);
    var l: nat :| Leaves(n, size, l, w);
    if k < l {
      QuotientGap(size, k, l);
    } else if l < k {
      QuotientGap(size, l, k);
    }
  }

  /** All entries of all buckets. */
  ghost function Contents(t: seq<seq<HashEntry>>): multiset<HashEntry> {
    if t == [] then multiset{} else Contents(t[..|t| - 1]) + multiset(t[|t| - 1])
  }

  /** A linear scan of the whole table finds the value. */
  ghost predicate Present(t: Table, x: Unsigned) {
    exists b: nat, i: nat :: b < HASH_TABLE_SIZE && i < |t[b]| && t[b][i].value == x
  }

  /** Every entry is below the array size and in the bucket of its value. */
  predicate Placed(t: Table, hash: Hash, size: nat) {
    forall b: nat, i: nat | b < HASH_TABLE_SIZE && i < |t[b]| ::
      t[b][i].value < size && hash(t[b][i].value) == b
  }

  lemma {:induction false} InsertAllPlaced(t: Table, hash: Hash, size: nat, values: seq<Unsigned>)
    requires Placed(t, hash, size) && forall v | v in values :: v < size
    ensures Placed(InsertAll(t, hash, values), hash, size)
  {
    if values != [] {
      var last := |values| - 1;
      assert forall v | v in values[..last] :: v in values;
      InsertAllPlaced(t, hash, size, values[..last]);
      assert values[last] in values;
      var u, r := InsertAll(t, hash, values[..last]), InsertAll(t, hash, values);
      var h := hash(values[last]);
      assert forall i: nat | 0 < i < |r[h]| :: r[h][i] == u[h][i - 1];
    }
  }

  lemma AddToBoth<T>(a: multiset<T>, b: multiset<T>, c: multiset<T>, d: multiset<T>, more: multiset<T>)
    requires a + b == c + d
    ensures (a + more) + b == (c + more) + d
  {
    assert (a + more) + b == (a + b) + more;
    assert (c + more) + d == (c + d) + more;
  }

  lemma TakeFromBoth<T>(a: multiset<T>, b: multiset<T>, c: multiset<T>, less: multiset<T>)
    requires a + less == b + (c + less)
    ensures a == b + c
  {
    assert a == (a + less) - less;
    assert b + c == (b + (c + less)) - less;
  }

  lemma {:induction false} ContentsUpdate(t: seq<seq<HashEntry>>, b: nat, chain: seq<HashEntry>)
    requires b < |t|
    ensures Contents(t[b := chain]) + multiset(t[b]) == Contents(t) + multiset(chain)
    decreases |t|
  {
    var last := |t| - 1;
    if b < last {
      ContentsUpdate(t[..last], b, chain);
      assert t[b := chain][..last] == t[..last][b := chain];
      assert t[b := chain][last] == t[last] && t[..last][b] == t[b];
      AddToBoth(Contents(t[..last][b := chain]), multiset(t[b]), Contents(t[..last]), multiset(chain), multiset(t[last]));
    } else {
      assert t[b := chain][..last] == t[..last];
    }
  }

  lemma InsertContents(t: Table, hash: Hash, v: Unsigned)
    ensures Contents(Insert(t, hash, v)) == Contents(t) + multiset{NewEntry(v)}
  {
    var chain := t[hash(v)];
    ContentsUpdate(t, hash(v), [NewEntry(v)] + chain);
    assert multiset([NewEntry(v)] + chain) == multiset{NewEntry(v)} + multiset(chain);
    TakeFromBoth(Contents(Insert(t, hash, v)), Contents(t), multiset{NewEntry(v)}, multiset(chain));
  }

  lemma {:induction false} InsertAllContents(t: Table, hash: Hash, values: seq<Unsigned>)
    ensures Contents(InsertAll(t, hash, values)) == Contents(t) + multiset(Map(NewEntry, values))
  {
    if values != [] {
      var first, v := values[..|values| - 1], values[|values| - 1];
      InsertAllContents(t, hash, first);
      InsertContents(InsertAll(t, hash, first), hash, v);
      assert Map(NewEntry, values) == Map(NewEntry, first) + [NewEntry(v)];
    }
  }

  lemma {:induction false} EmptyContents(k: nat)
    requires k <= HASH_TABLE_SIZE
    ensures Contents(EmptyTable()[..k]) == multiset{}
  {
    if k > 0 {
      EmptyContents(k - 1);
      assert EmptyTable()[..k][..k - 1] == EmptyTable()[..k - 1];
    }
  }

  // ---- runs

  datatype Call = Rebuild(random: seq<Unsigned>, memory: bool) | Search(x: Unsigned)

  /** A rebuild that runs out of memory leaves the table empty; a search leaves
      it as it is. */
  function Step(t: Table, hash: Hash, size: Unsigned, c: Call): Table {
    match c
    case Rebuild(random, memory) =>
      if memory then InsertAll(EmptyTable(), hash, Drawn(random, size)) else EmptyTable()
    case Search(_) => t
  }

  function Run(hash: Hash, size: Unsigned, calls: seq<Call>): Table {
    if calls == [] then EmptyTable()
    else Step(Run(hash, size, calls[..|calls| - 1]), hash, size, calls[|calls| - 1])
  }

  ghost predicate FullOrEmpty(t: Table, hash: Hash, size: Unsigned) {
    Placed(t, hash, size) && (|Contents(t)| == size || t == EmptyTable())
  }

  /** After the first build and any later rebuilds and searches, the table holds
      exactly `size` entries, or none after a failed allocation; and each is
      where the search's early exit and its choice of bucket expect it. */
  lemma {:induction false} ReachableFullOrEmpty(hash: Hash, size: Unsigned, calls: seq<Call>)
    requires size > 0
    requires forall c | c in calls && c.Rebuild? :: |c.random| == size
    ensures FullOrEmpty(Run(hash, size, calls), hash, size)
  {
    if calls != [] {
      var c := calls[|calls| - 1];
      assert c in calls;
      ReachableFullOrEmpty(hash, size, calls[..|calls| - 1]);
      if c.Rebuild? {
        BuiltFull(hash, size, c.random);
      }
    }
  }

  lemma BuiltFull(hash: Hash, size: Unsigned, random: seq<Unsigned>)
    requires size > 0 && |random| == size
    ensures var t := InsertAll(EmptyTable(), hash, Drawn(random, size));
      Placed(t, hash, size) && |Contents(t)| == size
  {
    InsertAllPlaced(EmptyTable(), hash, size, Drawn(random, size));
    BuiltSize(hash, size, random);
  }

  lemma {:induction false} InContents(t: seq<seq<HashEntry>>, e: HashEntry)
    ensures e in Contents(t) <==> exists b: nat :: b < |t| && e in t[b]
  {
    if t != [] {
      var last := |t| - 1;
      InContents(t[..last], e);
      if b: nat :| b < last && e in t[..last][b] {
        assert e in t[b];
      }
      if b: nat :| b < |t| && e in t[b] {
        assert b < last ==> e in t[..last][b];
      }
    }
  }

  lemma PresentInContents(t: Table, x: Unsigned)
    ensures Present(t, x) <==> HashEntry(x) in Contents(t)
  {
    InContents(t, HashEntry(x));
    if b: nat, i: nat :| b < HASH_TABLE_SIZE && i < |t[b]| && t[b][i].value == x {
      assert t[b][i] == HashEntry(x);
    }
    if b: nat :| b < |t| && HashEntry(x) in t[b] {
      var i: nat :| i < |t[b]| && t[b][i] == HashEntry(x);
      assert t[b][i].value == x;
    }
  }

  /** Some random number leaves v. */
  ghost predicate DrawnFrom(random: seq<Unsigned>, size: nat, v: nat) {
    exists i: nat :: i < |random| && IsRemainder(random[i], size, v)
  }

  /** The table of a build holds exactly the remainders of the random numbers. */
  lemma BuiltHolds(hash: Hash, size: Unsigned, random: seq<Unsigned>, v: Unsigned)
    requires size > 0
    ensures Present(InsertAll(EmptyTable(), hash, Drawn(random, size)), v) <==> DrawnFrom(random, size, v)
  {
    var values := Drawn(random, size);
    var entries := Map(NewEntry, values);
    InsertAllContents(EmptyTable(), hash, values);
    EmptyContents(HASH_TABLE_SIZE);
    assert EmptyTable()[..HASH_TABLE_SIZE] == EmptyTable();
    PresentInContents(InsertAll(EmptyTable(), hash, values), v);
    DrawnAreRemainders(random, size);
    if HashEntry(v) in multiset(entries) {
      var i: nat :| i < |entries| && entries[i] == HashEntry(v);
      assert IsRemainder(random[i], size, v);
    }
    if i: nat :| i < |random| && IsRemainder(random[i], size, v) {
      RemainderUnique(random[i], size, v, values[i]);
      assert entries[i] == HashEntry(v) && entries[i] in entries;
    }
  }

  /** What each call leaves, in terms of what a scan of the table finds. */
  lemma StepHolds(t: Table, hash: Hash, size: Unsigned, c: Call, v: Unsigned)
    requires size > 0
    ensures Present(Step(t, hash, size, c), v) <==>
              if c.Rebuild? then c.memory && DrawnFrom(c.random, size, v) else Present(t, v)
    ensures |Contents(Step(t, hash, size, c))| ==
              if !c.Rebuild? then |Contents(t)| else if c.memory then |c.random| else 0
  {
    if c.Rebuild? && c.memory {
      BuiltHolds(hash, size, c.random, v);
      BuiltSize(hash, size, c.random);
    } else if c.Rebuild? {
      EmptyContents(HASH_TABLE_SIZE);
      assert EmptyTable()[..HASH_TABLE_SIZE] == EmptyTable();
      PresentInContents(EmptyTable(), v);
    }
  }

  lemma BuiltSize(hash: Hash, size: Unsigned, random: seq<Unsigned>)
    ensures |Contents(InsertAll(EmptyTable(), hash, Drawn(random, size)))| == |random|
  {
    var values := Drawn(random, size);
    InsertAllContents(EmptyTable(), hash, values);
    EmptyContents(HASH_TABLE_SIZE);
    assert EmptyTable()[..HASH_TABLE_SIZE] == EmptyTable();
    assert |multiset(Map(NewEntry, values))| == |Map(NewEntry, values)|;
  }

  // ---- the comparators

  /** cmp_entry_ptr: ascending by value. */
  function CmpEntry(a: HashEntry, b: HashEntry): int {
    if a.value < b.value then -1 else if a.value > b.value then 1 else 0
  }

  /** cmp_key_entry */
  function CmpKey(key: int, e: HashEntry): int {
    if key < e.value then -1 else if key > e.value then 1 else 0
  }

  function ValueOf(e: HashEntry): int {
    e.value
  }

  ghost predicate Arranged(es: seq<HashEntry>, chain: seq<HashEntry>) {
    Sorting.Sorted(es, ValueOf) && multiset(es) == multiset(chain)
  }

  /** A chain has one ascending arrangement only, so sorting it any way gives the same. */
  lemma {:induction false} ArrangementUnique(a: seq<HashEntry>, b: seq<HashEntry>)
    requires Sorting.Sorted(a, ValueOf) && Sorting.Sorted(b, ValueOf) && multiset(a) == multiset(b)
    ensures a == b
    decreases |a|
  {
    assert |multiset(a)| == |a| && |multiset(b)| == |b|;
    if a != [] {
      HeadLeast(a, b);
      HeadLeast(b, a);
      assert a == [a[0]] + a[1..] && b == [b[0]] + b[1..];
      assert multiset(a[1..]) == multiset(a) - multiset{a[0]};
      assert multiset(b[1..]) == multiset(b) - multiset{b[0]};
      ArrangementUnique(a[1..], b[1..]);
    }
  }

  lemma HeadLeast(a: seq<HashEntry>, b: seq<HashEntry>)
    requires Sorting.Sorted(a, ValueOf) && multiset(a) == multiset(b) && a != [] && b != []
    ensures a[0].value <= b[0].value
    ensures Sorting.Sorted(a[1..], ValueOf)
  {
    assert b[0] in multiset(a);
    var i: nat :| i < |a| && a[i] == b[0];
    assert i > 0 ==> ValueOf(a[0]) <= ValueOf(a[i]);
  }

  /** The ascending contents of all buckets together are the whole table. */
  lemma {:induction false} DumpsCoverTable(t: seq<seq<HashEntry>>, dumps: seq<seq<HashEntry>>)
    requires |dumps| == |t| && forall b: nat | b < |t| :: Arranged(dumps[b], t[b])
    ensures Contents(dumps) == Contents(t)
  {
    if t != [] {
      var last := |t| - 1;
      DumpsCoverTable(t[..last], dumps[..last]);
    }
  }

  // ---- the text of a dump

  function Header(bucket: nat, len: nat): string {
    "bucket=" + (Decimal(bucket) + (" len=" + (Decimal(len) + ":")))
  }

  function Values(es: seq<HashEntry>): string {
    if es == [] then "" else Values(es[..|es| - 1]) + (" " + Decimal(es[|es| - 1].value))
  }

  function DumpText(bucket: nat, es: seq<HashEntry>): string {
    (Header(bucket, |es|) + Values(es)) + "\n"
  }

  // ---- a dump as a reader sees it

  /** One line: the bucket's number, how many numbers it holds, and these. */
  predicate DumpShows(text: string, bucket: nat, es: seq<HashEntry>) {
    && EndsIn(text, '\n') && '\n' !in Front(text)
    && var words := Split(Front(text), ' ');
      && |words| == 2 + |es|
      && |words[0]| > 7 && words[0][..7] == "bucket=" && IsNumber(words[0][7..], bucket)
      && |words[1]| > 5 && words[1][..4] == "len=" && EndsIn(words[1], ':') && IsNumber(Front(words[1])[4..], |es|)
      && forall i: nat | i < |es| :: IsNumber(words[2 + i], es[i].value)
  }

  predicate Ascending(es: seq<HashEntry>) {
    forall i: nat, j: nat | i < j < |es| :: es[i].value <= es[j].value
  }

  function Number(e: HashEntry): string {
    Decimal(e.value)
  }

  lemma HeaderWords(bucket: nat, len: nat)
    ensures Split(Header(bucket, len), ' ') == ["bucket=" + Decimal(bucket), "len=" + (Decimal(len) + ":")]
    ensures '\n' !in Header(bucket, len)
  {
    var a, b := "bucket=" + Decimal(bucket), "len=" + (Decimal(len) + ":");
    assert Header(bucket, len) == a + (" " + b);
    OnePart(a, ' ');
    OneMorePart(a, b, ' ');
  }

  lemma {:induction false} ValuesWords(head: string, es: seq<HashEntry>)
    requires '\n' !in head
    ensures Split(head + Values(es), ' ') == Split(head, ' ') + Map(Number, es)
    ensures '\n' !in head + Values(es)
  {
    if es == [] {
      assert head + Values(es) == head;
    } else {
      var last := |es| - 1;
      ValuesWords(head, es[..last]);
      ValuesStep(head, es, last);
      assert es[..last + 1] == es;
      OneMorePart(head + Values(es[..last]), Number(es[last]), ' ');
      assert Map(Number, es) == Map(Number, es[..last]) + [Number(es[last])];
    }
  }

  lemma DumpReads(bucket: nat, es: seq<HashEntry>)
    ensures DumpShows(DumpText(bucket, es), bucket, es)
  {
    var head := Header(bucket, |es|);
    HeaderWords(bucket, |es|);
    ValuesWords(head, es);
    assert Front(DumpText(bucket, es)) == head + Values(es);
    var a, b := Decimal(bucket), Decimal(|es|);
    DecimalReads(bucket);
    DecimalReads(|es|);
    assert ("bucket=" + a)[..7] == "bucket=" && ("bucket=" + a)[7..] == a;
    assert ("len=" + (b + ":"))[..4] == "len=" && Front("len=" + (b + ":"))[4..] == b;
    forall i: nat | i < |es|
      ensures IsNumber(Map(Number, es)[i], es[i].value)
    {
      DecimalReads(es[i].value);
    }
  }

  /** The text of a chain: its entries, in ascending order, as `es` lists them. */
  ghost predicate Lists(text: string, bucket: nat, chain: seq<HashEntry>, es: seq<HashEntry>) {
    Arranged(es, chain) && Ascending(es) && DumpShows(text, bucket, es)
  }

  lemma DumpLists(bucket: nat, chain: seq<HashEntry>, es: seq<HashEntry>)
    requires Arranged(es, chain)
    ensures Lists(DumpText(bucket, es), bucket, chain, es)
  {
    DumpReads(bucket, es);
    assert forall i: nat, j: nat | i < j < |es| :: ValueOf(es[i]) <= ValueOf(es[j]);
  }

  // ---- the module context

  class SearchContext {
    const arraySize: Unsigned
    const hash: Hash
    const htable: array<seq<HashEntry>>
    var lastFound: int
    var lastValue: Unsigned
    var lastBucket: Unsigned

    ghost predicate Valid()
      reads htable
    {
      htable.Length == HASH_TABLE_SIZE && Placed(htable[..], hash, arraySize)
    }

    ghost function Model(): Table
      requires htable.Length == HASH_TABLE_SIZE
      reads htable
    {
      htable[..]
    }

    /** The context as module initialisation sets it up, before the first build. */
    constructor (size: Unsigned, hash: Hash)
      ensures Valid() && fresh(htable) && Model() == EmptyTable()
      ensures arraySize == size && this.hash == hash && lastFound == 0
    {
      arraySize := size;
      this.hash := hash;
      lastFound, lastValue, lastBucket := 0, 0, 0;
      htable := new seq<HashEntry>[HASH_TABLE_SIZE](_ => []);
    }

    method Clear()
      requires htable.Length == HASH_TABLE_SIZE
      modifies htable
      ensures Model() == EmptyTable()
    {
      for b := 0 to HASH_TABLE_SIZE
        invariant forall k: nat | k < b :: htable[k] == []
      {
        while htable[b] != []
          invariant forall k: nat | k < b :: htable[k] == []
          decreases |htable[b]|
        {
          htable[b] := htable[b][1..];
        }
      }
    }

    /** `random` are the numbers drawn and `memory` tells of each allocation
        whether it succeeds. */
    method Build(random: seq<Unsigned>, memory: seq<bool>) returns (code: int)
      requires Valid() && |random| == |memory| == arraySize
      modifies htable
      ensures Valid()
      ensures code == if false in memory then BS_NOMEM else BS_OK
      ensures Model() == if false in memory then EmptyTable()
                         else InsertAll(old(Model()), hash, Drawn(random, arraySize))
      ensures code == BS_OK && old(Model()) == EmptyTable() && arraySize > 0 ==>
                forall v: Unsigned :: Present(Model(), v) <==> DrawnFrom(random, arraySize, v)
    {
      ghost var values := Drawn(random, arraySize);
      ghost var t := Model();
      for i := 0 to arraySize
        invariant false !in memory[..i]
        invariant Model() == InsertAll(t, hash, values[..i])
      {
        var val := random[i] % arraySize;
        if !memory[i] {
          Clear();
          return BS_NOMEM;
        }
        var b := hash(val);
        htable[b] := [HashEntry(val)] + htable[b];
        assert values[..i + 1][..i] == values[..i] && values[i] == val;
      }
      assert values[..arraySize] == values && memory[..arraySize] == memory;
      InsertAllPlaced(t, hash, arraySize, values);
      if arraySize > 0 {
        forall v: Unsigned
          ensures Present(InsertAll(EmptyTable(), hash, values), v) <==> DrawnFrom(random, arraySize, v)
        {
          BuiltHolds(hash, arraySize, random, v);
        }
      }
      return BS_OK;
    }

    method Rebuild(random: seq<Unsigned>, memory: seq<bool>) returns (code: int)
      requires Valid() && |random| == |memory| == arraySize
      modifies htable
      ensures Valid()
      ensures code == if false in memory then BS_NOMEM else BS_OK
      ensures Model() == Step(old(Model()), hash, arraySize, Call.Rebuild(random, false !in memory))
      ensures code == BS_OK && arraySize > 0 ==>
                forall v: Unsigned :: Present(Model(), v) <==> DrawnFrom(random, arraySize, v)
    {
      Clear();
      forall b | 0 <= b < HASH_TABLE_SIZE {
        htable[b] := [];
      }
      assert Model() == EmptyTable();
      code := Build(random, memory);
    }

    /** A copy of one bucket.  The freshly allocated array holds anything at first. */
    method CollectBucket(bucket: nat, memory: bool) returns (len: int, arr: array?<HashEntry>)
      requires Valid()
      ensures len == if bucket >= HASH_TABLE_SIZE then BS_INVALID
                     else if htable[bucket] == [] then 0
                     else if !memory then BS_NOMEM
                     else |htable[bucket]|
      ensures len > 0 ==> arr != null && fresh(arr) && arr[..] == htable[bucket]
    {
      arr := null;
      if bucket >= HASH_TABLE_SIZE {
        return BS_INVALID, null;
      }
      var chain := htable[bucket];
      len := 0;
      for k := 0 to |chain|
        invariant len == k
      {
        len := len + 1;
      }
      if len == 0 {
        return 0, null;
      }
      if !memory {
        return BS_NOMEM, null;
      }
      arr := new HashEntry[len](_ => HashEntry(0));
      var i := 0;
      for k := 0 to |chain|
        invariant i == k <= len == arr.Length
        invariant arr[..i] == chain[..i]
      {
        if i >= len {
          break;
        }
        arr[i] := chain[k];
        i := i + 1;
      }
      return i, arr;
    }

    /** With memory at hand, the search agrees with a scan of the whole table,
        the early exit included. */
    method Search(x: Unsigned, memory: bool) returns (code: int)
      requires Valid()
      modifies this
      ensures lastValue == x
      ensures lastBucket == if x < arraySize then hash(x) else 0
      ensures code == BS_NOMEM <==> x < arraySize && htable[hash(x)] != [] && !memory
      ensures code != BS_NOMEM ==> code == if Present(Model(), x) then BS_OK else BS_NOT_FOUND
      ensures lastFound == if code == BS_OK then 1 else 0
    {
      lastFound, lastValue, lastBucket := 0, x, 0;
      if x >= arraySize {
        return BS_NOT_FOUND;
      }
      var bucket := hash(x);
      lastBucket := bucket;
      var len, arr := CollectBucket(bucket, memory);
      if len < 0 {
        return len;
      }
      OnlyInItsBucket(Model(), hash, arraySize, x);
      if len == 0 {
        return BS_NOT_FOUND;
      }
      var found := SortAndFind(arr, len, x);
      lastFound := if found then 1 else 0;
      return if lastFound != 0 then BS_OK else BS_NOT_FOUND;
    }

    /** The bucket's numbers in ascending order, or as much of that text as fits. */
    method Dump(bucketId: nat, buf: array<char>, size: nat, memory: bool) returns (r: int)
      requires Valid() && size <= buf.Length && buf as object != htable
      modifies buf
      ensures bucketId >= HASH_TABLE_SIZE ==> r == BS_INVALID && buf[..] == old(buf[..])
      ensures bucketId < HASH_TABLE_SIZE && htable[bucketId] != [] && !memory ==>
                r == BS_NOMEM && buf[..] == old(buf[..])
      ensures bucketId < HASH_TABLE_SIZE && (htable[bucketId] == [] || memory) ==>
                0 <= r && Dumped(buf, r, size, bucketId, htable[bucketId])
    {
      if bucketId >= HASH_TABLE_SIZE {
        return BS_INVALID;
      }
      var len, arr := CollectBucket(bucketId, memory);
      if len < 0 {
        return len;
      }
      ghost var chain := htable[bucketId];
      if len == 0 {
        r := PrintEmpty(bucketId, buf, size);
      } else {
        r := PrintSorted(bucketId, arr, len, buf, size);
      }
      assert htable[bucketId] == chain;
    }
  }

  /** The buffer shows what fits of the dump of this chain, r characters. */
  ghost predicate Dumped(buf: array<char>, r: nat, size: nat, bucket: nat, chain: seq<HashEntry>)
    reads buf
  {
    exists es :: Lists(DumpText(bucket, es), bucket, chain, es)
      && r == |Shown(DumpText(bucket, es), size)|
      && Showing(buf, r, size, DumpText(bucket, es))
      && (size > 0 ==> buf[r] == NUL)
  }

  method PrintEmpty(bucket: nat, buf: array<char>, size: nat) returns (r: nat)
    requires size <= buf.Length
    modifies buf
    ensures Dumped(buf, r, size, bucket, [])
  {
    EmptyDump(bucket);
    DumpLists(bucket, [], []);
    NothingPrinted(buf, size);
    r := Append(buf, 0, size, Header(bucket, 0) + "\n", "");
  }

  /** sort() on the copied bucket, then the printing loop. */
  method PrintSorted(bucket: nat, arr: array<HashEntry>, len: nat, buf: array<char>, size: nat) returns (r: nat)
    requires len == arr.Length && size <= buf.Length && buf as object != arr
    modifies arr, buf
    ensures Dumped(buf, r, size, bucket, old(arr[..]))
  {
    ghost var chain := arr[..];
    assert arr[..len] == chain;
    Sorting.Sort(arr, len, CmpEntry, ValueOf);
    assert arr[..len] == arr[..];
    ghost var es := arr[..];
    DumpLists(bucket, chain, es);
    r := PrintEntries(bucket, arr, buf, size);
  }

  /** sort() on the copied bucket, then bsearch() in it. */
  method SortAndFind(arr: array<HashEntry>, len: nat, x: Unsigned) returns (found: bool)
    requires len == arr.Length
    modifies arr
    ensures found <==> exists e :: e in old(arr[..]) && e.value == x
  {
    ghost var chain := arr[..];
    assert arr[..len] == chain;
    Sorting.Sort(arr, len, CmpEntry, ValueOf);
    assert arr[..len] == arr[..];
    var r := Sorting.BinarySearch(x, arr, CmpKey, ValueOf);
    SameMembers(arr[..], chain);
    found := r >= 0;
    if found {
      assert arr[..][r] in arr[..];
    }
  }

  /** The largest offset at which the loop still prints; size_t wraps for an empty buffer. */
  function Limit(size: nat): nat {
    if size == 0 then WORD64 - 1 else size - 1
  }

  method PrintEntries(bucket: nat, arr: array<HashEntry>, buf: array<char>, size: nat) returns (off: nat)
    requires size <= buf.Length && buf as object != arr
    modifies buf
    ensures Showing(buf, off, size, DumpText(bucket, arr[..]))
    ensures size > 0 ==> buf[off] == NUL
  {
    ghost var pieces, printed := DumpTexts(bucket, arr[..]);
    var len := arr.Length;
    NothingPrinted(buf, size);
    off := Append(buf, 0, size, Header(bucket, len), "");
    var i: nat := 0;
    while i < len
      invariant i <= len
      invariant Showing(buf, off, size, printed[i])
      invariant size > 0 ==> buf[off] == NUL
    {
      if off >= Limit(size) {
        break;
      }
      var n := Append(buf, off, size, " " + Decimal(arr[i].value), printed[i]);
      off := off + n;
      i := i + 1;
    }
    if off < Limit(size) {
      var n := Append(buf, off, size, "\n", printed[len]);
      off := off + n;
    } else {
      NothingMore(pieces, printed, i, len + 1, buf, size);
    }
  }

  lemma DumpTexts(bucket: nat, es: seq<HashEntry>) returns (pieces: seq<string>, printed: seq<string>)
    ensures Growing(pieces, printed) && |pieces| == |es| + 1 && pieces[|es|] == "\n"
    ensures forall i: nat | i < |es| :: pieces[i] == " " + Decimal(es[i].value)
    ensures printed[0] == "" + Header(bucket, |es|) && printed[|es| + 1] == DumpText(bucket, es)
  {
    var head := Header(bucket, |es|);
    pieces := seq(|es|, i requires 0 <= i < |es| => " " + Decimal(es[i].value)) + ["\n"];
    printed := seq(|es| + 1, i requires 0 <= i <= |es| => head + Values(es[..i])) + [DumpText(bucket, es)];
    forall i: nat | i < |pieces|
      ensures printed[i + 1] == printed[i] + pieces[i]
    {
      if i < |es| {
        ValuesStep(head, es, i);
      } else {
        assert es[..i] == es;
      }
    }
    assert head + Values(es[..0]) == "" + head;
  }

  lemma ValuesStep(head: string, es: seq<HashEntry>, i: nat)
    requires i < |es|
    ensures head + Values(es[..i + 1]) == (head + Values(es[..i])) + (" " + Decimal(es[i].value))
  {
    assert es[..i + 1][..i] == es[..i];
  }

  lemma EmptyDump(bucket: nat)
    ensures Arranged([], [])
    ensures "" + (Header(bucket, 0) + "\n") == DumpText(bucket, [])
  {
  }

  lemma SameMembers(a: seq<HashEntry>, b: seq<HashEntry>)
    requires multiset(a) == multiset(b)
    ensures forall e :: e in a <==> e in b
  {
    forall e
      ensures e in a <==> e in b
    {
      assert e in multiset(a) <==> e in multiset(b);
    }
  }

  /** A value below the array size is in its own bucket or nowhere. */
  lemma OnlyInItsBucket(t: Table, hash: Hash, size: nat, x: Unsigned)
    requires Placed(t, hash, size)
    ensures Present(t, x) <==> exists e :: e in t[hash(x)] && e.value == x
    ensures Present(t, x) ==> x < size
  {
    if e :| e in t[hash(x)] && e.value == x {
      var i: nat :| i < |t[hash(x)]| && t[hash(x)][i] == e;
    }
  }
}

/** The text view of the allocator: a map of its first blocks and its table. */
module AllocatorInfo {
  import opened Allocator
  import opened Bitmap
  import opened Buffer
  import opened Text
  import opened Reading
  import opened Maps

  const SHOWN_BLOCKS: nat := 80

  function FirstBlocks(used: seq<bool>): seq<bool> {
    if |used| < SHOWN_BLOCKS then used else used[..SHOWN_BLOCKS]
  }

  function Cell(used: bool): string {
    if used then "X" else "."
  }

  function MapText(used: seq<bool>): string {
    if used == [] then "" else MapText(used[..|used| - 1]) + Cell(used[|used| - 1])
  }

  function CountLine(n: nat): string {
    "Active allocations: " + Decimal(n) + "\n"
  }

  /** "  [%zu] block %zu, %zu blocks, ptr %px\n" */
  function RecordLine(i: nat, a: AllocationInfo): string {
    Spaced(RecordWords(i, a)) + "\n"
  }

  function RecordWords(i: nat, a: AllocationInfo): seq<string> {
    ["", "", "[" + (Decimal(i) + "]"), "block", Decimal(a.startBlock) + ",",
     Decimal(a.numBlocks), "blocks,", "ptr", Pointer(a.ptr)]
  }

  function RecordLines(table: seq<AllocationInfo>): (lines: seq<string>)
    ensures |lines| == |table|
    ensures forall i: nat | i < |table| :: lines[i] == RecordLine(i, table[i])
  {
    seq(|table|, i requires 0 <= i < |table| => RecordLine(i, table[i]))
  }

  function TableText(table: seq<AllocationInfo>): string {
    Concat(RecordLines(table))
  }

  const TITLE := "Bitmap (first 80 blocks): ["
  const MAP_END := "]\n"

  function InfoText(s: State): string {
    (((TITLE + MapText(FirstBlocks(s.used))) + MAP_END) + CountLine(|s.table|)) + TableText(s.table)
  }

  // ---- the text as a reader sees it

  /** One character for each of the first blocks, between brackets. */
  predicate MapShows(line: string, used: seq<bool>) {
    var n := if |used| < 80 then |used| else 80;
    && |line| == 28 + n
    && line[..27] == "Bitmap (first 80 blocks): [" && line[27 + n] == ']'
    && forall i: nat | i < n :: line[27 + i] == if used[i] then 'X' else '.'
  }

  predicate CountShows(line: string, n: nat) {
    |line| > 20 && line[..20] == "Active allocations: " && IsNumber(line[20..], n)
  }

  /** "  [i] block start, count blocks, ptr pointer", word by word. */
  predicate WordsShow(words: seq<string>, i: nat, a: AllocationInfo) {
    && |words| == 9 && words[0] == "" && words[1] == ""
    && |words[2]| > 2 && words[2][0] == '[' && EndsIn(words[2], ']') && IsNumber(Front(words[2])[1..], i)
    && words[3] == "block" && EndsIn(words[4], ',') && IsNumber(Front(words[4]), a.startBlock)
    && IsNumber(words[5], a.numBlocks) && words[6] == "blocks,"
    && words[7] == "ptr" && IsPointer(words[8], a.ptr)
  }

  predicate RecordShows(line: string, i: nat, a: AllocationInfo) {
    WordsShow(Split(line, ' '), i, a)
  }

  /** The map, the count, and one line a record, a newline behind each. */
  predicate LinesShow(lines: seq<string>, s: State) {
    && |lines| == |s.table| + 3 && lines[|s.table| + 2] == ""
    && MapShows(lines[0], s.used) && CountShows(lines[1], |s.table|)
    && forall i: nat | i < |s.table| :: RecordShows(lines[2 + i], i, s.table[i])
  }

  predicate InfoShows(text: string, s: State) {
    LinesShow(Split(text, '\n'), s)
  }

  lemma {:induction false} MapTextAt(used: seq<bool>)
    ensures |MapText(used)| == |used|
    ensures forall i: nat | i < |used| :: MapText(used)[i] == if used[i] then 'X' else '.'
  {
    if used != [] {
      MapTextAt(used[..|used| - 1]);
    }
  }

  function MapLine(used: seq<bool>): string {
    ((TITLE + MapText(FirstBlocks(used))) + "]") + "\n"
  }

  lemma MapReads(used: seq<bool>)
    ensures IsLine(MapLine(used)) && MapShows(Front(MapLine(used)), used)
  {
    var cells := MapText(FirstBlocks(used));
    FirstBlocksAt(used);
    MapTextAt(FirstBlocks(used));
    assert |TITLE| == 27;
    assert Front(MapLine(used)) == (TITLE + cells) + "]";
  }

  lemma CountReads(n: nat)
    ensures IsLine(CountLine(n)) && CountShows(Front(CountLine(n)), n)
  {
    var d := Decimal(n);
    DecimalReads(n);
    assert Front(CountLine(n)) == "Active allocations: " + d;
    assert ("Active allocations: " + d)[..20] == "Active allocations: " && ("Active allocations: " + d)[20..] == d;
  }

  lemma WordsRead(i: nat, a: AllocationInfo)
    requires a.ptr < WORD64
    ensures WordsShow(RecordWords(i, a), i, a)
  {
    var d, start := Decimal(i), Decimal(a.startBlock);
    DecimalReads(i);
    DecimalReads(a.startBlock);
    DecimalReads(a.numBlocks);
    PointerReads(a.ptr);
    assert Front("[" + (d + "]"))[1..] == d && Front(start + ",") == start;
  }

  lemma WordsPlain(i: nat, a: AllocationInfo)
    ensures forall k: nat | k < |RecordWords(i, a)| :: ' ' !in RecordWords(i, a)[k] && '\n' !in RecordWords(i, a)[k]
  {
    HexChars(a.ptr, 16);
  }

  lemma RecordReads(i: nat, a: AllocationInfo)
    requires a.ptr < WORD64
    ensures IsLine(RecordLine(i, a)) && RecordShows(Front(RecordLine(i, a)), i, a)
  {
    var words := RecordWords(i, a);
    WordsRead(i, a);
    WordsPlain(i, a);
    SpacedRead(words);
    SpacedWithout(words, '\n');
    assert Front(RecordLine(i, a)) == Spaced(words);
  }

  function InfoLines(s: State): seq<string> {
    [MapLine(s.used), CountLine(|s.table|)] + RecordLines(s.table)
  }

  lemma InfoConcat(s: State)
    ensures Concat(InfoLines(s)) == InfoText(s)
  {
    var a, b := MapLine(s.used), CountLine(|s.table|);
    ConcatBoth([a, b], RecordLines(s.table));
    assert [a, b][..1] == [a] && [a][..0] == [];
    assert Concat([]) + a == a;
    assert a == (TITLE + MapText(FirstBlocks(s.used))) + MAP_END;
  }

  lemma RecordsRead(s: State)
    requires Consistent(s)
    ensures forall i: nat | i < |s.table| ::
              IsLine(RecordLines(s.table)[i]) && RecordShows(Front(RecordLines(s.table)[i]), i, s.table[i])
  {
    forall i: nat | i < |s.table|
      ensures IsLine(RecordLines(s.table)[i]) && RecordShows(Front(RecordLines(s.table)[i]), i, s.table[i])
    {
      assert RecordOk(s, s.table[i]);
      RecordReads(i, s.table[i]);
    }
  }

  lemma LinesOfParts(s: State, first: string, count: string, records: seq<string>)
    requires |records| == |s.table|
    requires MapShows(Front(first), s.used) && CountShows(Front(count), |s.table|)
    requires forall i: nat | i < |records| :: RecordShows(Front(records[i]), i, s.table[i])
    ensures LinesShow(Map(Front, [first, count] + records) + [""], s)
  {
    var lines := Map(Front, [first, count] + records) + [""];
    forall i: nat | i < |records|
      ensures RecordShows(lines[2 + i], i, s.table[i])
    {
      assert lines[2 + i] == Front(records[i]);
    }
  }

  lemma AllLines(first: string, count: string, records: seq<string>, lines: seq<string>)
    requires IsLine(first) && IsLine(count) && forall i: nat | i < |records| :: IsLine(records[i])
    requires lines == [first, count] + records
    ensures forall i: nat | i < |lines| :: IsLine(lines[i])
  {
    forall i: nat | i < |lines|
      ensures IsLine(lines[i])
    {
      assert i >= 2 ==> lines[i] == records[i - 2];
    }
  }

  /** The printed text shows exactly the state it was printed from. */
  lemma InfoReads(s: State)
    requires Consistent(s)
    ensures InfoShows(InfoText(s), s)
  {
    InfoConcat(s);
    MapReads(s.used);
    CountReads(|s.table|);
    RecordsRead(s);
    AllLines(MapLine(s.used), CountLine(|s.table|), RecordLines(s.table), InfoLines(s));
    LinesRead(InfoLines(s));
    LinesOfParts(s, MapLine(s.used), CountLine(|s.table|), RecordLines(s.table));
  }

  /** Print one piece behind what has been printed. */
  method Print(buf: array<char>, len: nat, size: nat, text: string, ghost printed: string) returns (total: nat)
    requires Showing(buf, len, size, printed)
    modifies buf
    ensures Showing(buf, total, size, printed + text)
    ensures size > 0 ==> buf[total] == NUL
  {
    var n := Append(buf, len, size, text, printed);
    total := len + n;
  }

  lemma MapStep(printed: string, used: seq<bool>, i: nat)
    requires i < |used|
    ensures printed + MapText(used[..i + 1]) == (printed + MapText(used[..i])) + Cell(used[i])
  {
    assert used[..i + 1][..i] == used[..i];
  }

  lemma NoneShown(printed: string, used: seq<bool>)
    ensures printed + MapText(used[..0]) == printed
  {
  }

  lemma FirstBlocksAt(used: seq<bool>)
    ensures |FirstBlocks(used)| == if |used| < SHOWN_BLOCKS then |used| else SHOWN_BLOCKS
    ensures forall i: nat | i < |FirstBlocks(used)| :: FirstBlocks(used)[i] == used[i]
  {
  }

  lemma TableStep(printed: string, table: seq<AllocationInfo>, i: nat)
    requires i < |table|
    ensures printed + TableText(table[..i + 1]) == (printed + TableText(table[..i])) + RecordLine(i, table[i])
  {
    var lines := RecordLines(table[..i + 1]);
    assert lines[..|lines| - 1] == RecordLines(table[..i]);
  }

  /** One cell of the map. */
  method PrintCell(bitmap: array<bv8>, i: nat, buf: array<char>, start: nat, size: nat,
                   ghost cells: seq<bool>, ghost printed: string) returns (len: nat)
    requires i < 8 * bitmap.Length && buf as object != bitmap
    requires i < |cells| && cells[i] == Bit(bitmap[..], i)
    requires Showing(buf, start, size, printed + MapText(cells[..i]))
    modifies buf
    ensures Showing(buf, len, size, printed + MapText(cells[..i + 1]))
  {
    MapStep(printed, cells, i);
    var bit := TestBit(bitmap, i);
    len := Print(buf, start, size, Cell(bit != 0), printed + MapText(cells[..i]));
  }

  /** The map of the first blocks. */
  method PrintMap(bitmap: array<bv8>, total: nat, buf: array<char>, start: nat, size: nat,
                  ghost used: seq<bool>, ghost printed: string) returns (len: nat)
    requires total <= 8 * bitmap.Length && buf as object != bitmap
    requires used == Used(bitmap[..], total)
    requires Showing(buf, start, size, printed)
    modifies buf
    ensures Showing(buf, len, size, printed + MapText(FirstBlocks(used)))
  {
    ghost var cells := FirstBlocks(used);
    FirstBlocksAt(used);
    len := start;
    var i: nat := 0;
    NoneShown(printed, cells);
    while i < SHOWN_BLOCKS && i < total
      invariant i <= |cells|
      invariant used == Used(bitmap[..], total)
      invariant Showing(buf, len, size, printed + MapText(cells[..i]))
    {
      len := PrintCell(bitmap, i, buf, len, size, cells, printed);
      i := i + 1;
    }
    assert cells[..i] == cells;
  }

  /** One line for each record of the table. */
  method PrintTable(allocations: array<AllocationInfo>, n: nat, buf: array<char>, start: nat, size: nat,
                    ghost printed: string)
    returns (len: nat)
    requires n <= allocations.Length && buf as object != allocations
    requires Showing(buf, start, size, printed) && (size > 0 ==> buf[start] == NUL)
    modifies buf
    ensures Showing(buf, len, size, printed + TableText(allocations[..n]))
    ensures size > 0 ==> buf[len] == NUL
  {
    ghost var table := allocations[..n];
    len := start;
    assert printed + TableText(table[..0]) == printed;
    for i := 0 to n
      invariant Showing(buf, len, size, printed + TableText(table[..i]))
      invariant size > 0 ==> buf[len] == NUL
    {
      TableStep(printed, table, i);
      var a := allocations[i];
      assert a == table[i];
      len := Print(buf, len, size, RecordLine(i, a), printed + TableText(table[..i]));
    }
    assert table[..n] == table;
  }

  /** allocator_bitmap_info: as much of the text as fits, and how much that is. */
  method BitmapInfo(alloc: MemoryAllocator, buf: array<char>, size: nat) returns (len: nat)
    requires alloc.Valid() && size <= buf.Length
    requires buf as object != alloc.bitmap && buf as object != alloc.allocations
    modifies buf
    ensures Showing(buf, len, size, InfoText(old(alloc.Model())))
    ensures InfoShows(InfoText(old(alloc.Model())), old(alloc.Model()))
    ensures size > 0 ==> buf[len] == NUL
  {
    ghost var s := alloc.Model();
    InfoReads(s);
    NothingPrinted(buf, size);
    assert "" + TITLE == TITLE;
    len := Print(buf, 0, size, TITLE, "");
    len := PrintMap(alloc.bitmap, alloc.totalBlocks, buf, len, size, s.used, TITLE);
    ghost var mapText := TITLE + MapText(FirstBlocks(s.used));
    len := Print(buf, len, size, MAP_END, mapText);
    len := Print(buf, len, size, CountLine(alloc.numAllocations), mapText + MAP_END);
    len := PrintTable(alloc.allocations, alloc.numAllocations, buf, len, size,
                      (mapText + MAP_END) + CountLine(|s.table|));
  }
}

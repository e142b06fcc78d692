# Verified models of four Linux kernel course modules

The repository's `Linux_kernel` directory holds several small kernel modules.
This project models four of them in Dafny, with the state and the loops the C
and Go code has, and proves what their operations and their runs keep.

* **Block allocator** (`HW_05_bit_maps`): `Bitmap.dfy` packs one bit a block into
  bytes and scans, sets, clears and counts them in place; `Allocator.dfy` keeps
  that bitmap beside an unordered table with append and swap-with-last.
  `AllocatorCalls.dfy` says exactly when a call succeeds and how release undoes
  allocation, `AllocatorRuns.dfy` and `AllocatorClients.dfy` what holds after any
  calls, `Fragmentation.dfy` what the free-run count is worth, and
  `AllocatorInfo.dfy` covers the text view.  Each operation runs under the
  spinlock, so one call is one step.
* **Traffic statistics and exporter** (`final_work_kprobe`): `TrafficTable.dfy`
  treats the chained table as a value and shows that it is a map from routes to
  counters; `TrafficStats.dfy` is the module itself, entries updated in place;
  `TopTraffic.dfy` says which rows are chosen for the report, `BusiestRoutes.dfy`
  when those are the busiest routes; `ReportText.dfy`, `GoStrings.dfy` and
  `Collector.dfy` print and parse the report, `RoundTrip.dfy` and `Exporter.dfy`
  connect the two ends, `PageLimit.dfy` says when a page is long enough, and
  `CollectorText.dfy` what the collector makes of any text at all.
* **Hash table with binary search** (`HW_06_binary_hashtable`): `BucketSearch.dfy`.
* **Linked FIFO** (`Lesson 9/fifo.c`): `Fifo.dfy`.

`Buffer.dfy` (scnprintf), `Sorting.dfy` (sort and bsearch under the callers' own
comparators), `Text.dfy` (number and address formats), `Reading.dfy` (a reader
that splits texts and reads digits, knowing nothing of the formats) and
`Maps.dfy` serve several of them.  Every printed text is stated as that reader
sees it: `ReportShows`, `DumpShows` and `InfoShows`.

Memory allocation results, the address vzalloc returns, drawn random numbers and
the text of the opened file are parameters; the hash functions are arbitrary
fixed functions into the buckets.  `size_t` and `u64` arithmetic wraps where the
code lets it.  The number of blocks is a parameter of every allocator theorem;
only `Init` fixes it to 2560.

Where code and documentation disagree, the model follows the code:

* `HW_05_bit_maps/kernel_alloc_task.md:164-170` promises a fragmentation of 0%
  after its example run; the code reports 50 (`ExampleFragmentation`).
* `HW_05_bit_maps/kernel_alloc_task.md:57` gives `allocator_free` the error -1;
  the code returns -2 or -3.
* `final_work_kprobe/src/params.c:26` promises the top N addresses by traffic.
  Measured by all bytes recorded, without wrap-around, and by what a reader of
  the page learns, the report of N rows over m routes of at most B bytes each is
  right for every run of the probes if and only if N or m is 0, or memory is never
  short, m is at most 100 and either m is 1 or B is below 2^64 and min(N, m)
  times the longest line that B allows is at most 4096 (`TrueTopIff`; from
  B = 11 * 10^18 on that line has 76 characters and 53 rows fit, `LargeCounts`).
  The code collects only 100 entries before it sorts (`MissedNotBusiest`),
  compares 64-bit totals, which wrap when an error code of the send probe, taken
  for a byte count, is added (`WrappedNotBusiest`), and cuts the text to the page
  (`CutNotShown`).
* A printed report is read back exactly if and only if its text is no longer
  than the buffer (`ReadBackIff`), and whatever the probes record through a page
  if and only if `top_n` is at most 53 (`FitsPageIff`); past that the last entry
  can show a sent count with digits missing.
* `HW_06_binary_hashtable/kernel_hashtable_task-510203-f42f9c.md:5` names
  `value % num_buckets` as the hash; the code uses `hash_min`, here any function.

## Model

| member | source | states |
|---|---|---|
| Bitmap.TestBit | Linux_kernel/HW_05_bit_maps/src/bitmap.c:38-40 | reads bit `bit` of the packed buffer as 0 or 1 |
| Bitmap.BytesAreBits | Linux_kernel/HW_05_bit_maps/src/bitmap.c:38-40 | eight blocks are the binary digits of one byte, the lowest block the lowest digit |
| Bitmap.FindFreeRegion | Linux_kernel/HW_05_bit_maps/src/bitmap.c:3-22 | the single counting pass returns the first-fit start of the reference search that tries every start in turn |
| Bitmap.FirstFitExact | Linux_kernel/HW_05_bit_maps/src/bitmap.c:3-22 | first fit is exact: the least start of a free run of n blocks; -1 if and only if n is 0 or there is no such run |
| Bitmap.SetRegion | Linux_kernel/HW_05_bit_maps/src/bitmap.c:24-29 | exactly the bits of the region become 1; every other bit of the buffer, neighbours in shared bytes included, keeps its value |
| Bitmap.ClearRegion | Linux_kernel/HW_05_bit_maps/src/bitmap.c:31-36 | exactly the bits of the region become 0; every other bit keeps its value |
| Bitmap.CountSet | Linux_kernel/HW_05_bit_maps/src/bitmap.c:42-52 | returns the number of blocks in use |
| Bitmap.FragmentationPercent | Linux_kernel/HW_05_bit_maps/src/bitmap.c:54-76 | returns the figure of the number of maximal free runs |
| Fragmentation.PercentFloor | Linux_kernel/HW_05_bit_maps/src/bitmap.c:72-75 | from two runs on the figure is the integer part of 100(r-1)/r |
| Fragmentation.PercentMeaning | Linux_kernel/HW_05_bit_maps/src/bitmap.c:72-75 | 0 if and only if there is at most one run, otherwise in 50..99, 99 exactly from 100 runs on, never falling as runs grow |
| Fragmentation.Pigeonhole | Linux_kernel/HW_05_bit_maps/src/bitmap.c:54-70 | with no n consecutive free blocks, r runs hold at most r(n-1) free blocks |
| Fragmentation.ZeroFragmentation | Linux_kernel/HW_05_bit_maps/src/bitmap.c:54-76 | the figure is 0 if and only if every run length up to the number of free blocks is available |
| Fragmentation.FreeRunsIsCard | Linux_kernel/HW_05_bit_maps/src/bitmap.c:60-70 | the run counter counts the blocks at which a free run begins |
| Allocator.MemoryAllocator.Init | Linux_kernel/HW_05_bit_maps/src/allocator.c:12-35 | succeeds if and only if both allocations do; then all 2560 blocks are free and the table is empty, otherwise no bitmap is left |
| Allocator.MemoryAllocator.Alloc | Linux_kernel/HW_05_bit_maps/src/allocator.c:37-81 | bitmap, table and returned pointer are those of the allocation step, and bitmap and table still agree |
| Allocator.MemoryAllocator.Free | Linux_kernel/HW_05_bit_maps/src/allocator.c:83-116 | bitmap, table and return code are those of the release step, and bitmap and table still agree |
| Allocator.MemoryAllocator.GetStats | Linux_kernel/HW_05_bit_maps/src/allocator.c:118-136 | the seven figures of the current state: all blocks, the free ones counted on the bitmap, the rest in use, each times the block size as memory, and the fragmentation of the free runs counted |
| Allocator.MemoryAllocator.Cleanup | Linux_kernel/HW_05_bit_maps/src/allocator.c:138-150 | neither buffer is left and the table is empty |
| Allocator.AllocKeepsConsistent | Linux_kernel/HW_05_bit_maps/src/allocator.c:37-81 | allocation keeps a bit set exactly for the blocks of one live region, regions non-empty, in range and disjoint, pointers matching, the table within its cap |
| Allocator.RemoveAtOwners | Linux_kernel/HW_05_bit_maps/src/allocator.c:103-106 | swapping the last record in loses the removed record and no other |
| Allocator.FreeKeepsConsistent | Linux_kernel/HW_05_bit_maps/src/allocator.c:83-116 | release keeps the same agreement of bitmap, table and pool |
| AllocatorCalls.RoundUp | Linux_kernel/HW_05_bit_maps/src/allocator.c:48 | the 64-bit round-up is the true number of blocks, or 0 for the sizes where it wraps |
| AllocatorCalls.AllocExact | Linux_kernel/HW_05_bit_maps/src/allocator.c:43-80 | a request succeeds if and only if it is not empty, a slot is left and the blocks it truly needs are free in a row; it takes the leftmost such run; a failed one changes nothing |
| AllocatorCalls.WrappedRequestFails | Linux_kernel/HW_05_bit_maps/src/allocator.c:48-58 | a size whose round-up wraps becomes 0 blocks and is refused without change |
| AllocatorCalls.FreeExact | Linux_kernel/HW_05_bit_maps/src/allocator.c:83-116 | release succeeds if and only if the pointer is live and then removes just it; null and unknown pointers get their own codes and change nothing |
| AllocatorCalls.FreeUndoesAlloc | Linux_kernel/HW_05_bit_maps/src/allocator.c:66-109 | releasing what was just allocated restores bitmap and table exactly |
| AllocatorCalls.SecondFreeNotFound | Linux_kernel/HW_05_bit_maps/src/allocator.c:94-115 | releasing a pointer twice in a row finds nothing the second time and changes nothing |
| AllocatorCalls.Coalesce | Linux_kernel/HW_05_bit_maps/src/allocator.c:83-116 | after releasing two adjacent regions, in either order, a request for both their sizes succeeds, no further right than the lower one |
| AllocatorRuns.ReachableConsistent | Linux_kernel/HW_05_bit_maps/src/allocator.c:37-116 | bitmap, table and pool agree in every state any calls reach |
| AllocatorRuns.BitsAreRegions | Linux_kernel/HW_05_bit_maps/src/allocator.c:125 | the bit count is the sum of the blocks of the live regions |
| AllocatorRuns.StatsExact | Linux_kernel/HW_05_bit_maps/src/allocator.c:118-136 | each of the seven figures on its own: total and free blocks and memory as counted, allocated ones as the sum over the table, the percentage that of the runs counted |
| AllocatorRuns.StatsConserve | Linux_kernel/HW_05_bit_maps/src/allocator.c:118-136 | allocated blocks are those of the table, free and allocated memory add up to the total, and no product wraps |
| AllocatorRuns.RunsAtMostAllocationsPlusOne | Linux_kernel/HW_05_bit_maps/src/bitmap.c:54-70 | there are at most as many free runs as live allocations plus one |
| AllocatorRuns.PigeonholeGuarantee | Linux_kernel/HW_05_bit_maps/src/allocator.c:48-80 | with a slot left, a request for n blocks succeeds once more than (live+1)(n-1) blocks are free |
| AllocatorRuns.ZeroFragmentationMeans | Linux_kernel/HW_05_bit_maps/src/allocator.c:128-131 | with a slot left, a reported 0 means exactly that every request up to the free memory succeeds |
| AllocatorRuns.ExampleFragmentation | Linux_kernel/HW_05_bit_maps/kernel_alloc_task.md:148-170 | the documented example run returns the documented addresses but a fragmentation of 50, not 0 |
| AllocatorRuns.FreeAllInAnyOrder | Linux_kernel/HW_05_bit_maps/src/allocator.c:83-116 | releasing all live pointers in any order succeeds throughout and leaves an all-zero bitmap and an empty table |
| AllocatorClients.LiveRangesDisjoint | Linux_kernel/HW_05_bit_maps/src/allocator.c:37-116 | after any calls, the byte ranges asked for and not released lie in the pool and never meet, and no further request gets a pointer still held |
| AllocatorClients.OrderNotObservable | Linux_kernel/HW_05_bit_maps/src/allocator.c:103-106 | states with the same live regions in whatever table order answer all further calls alike |
| AllocatorInfo.BitmapInfo | Linux_kernel/HW_05_bit_maps/src/allocator.c:152-180 | the buffer holds the longest prefix of the full text that fits, terminated, and its length is returned; the full text reads as the state |
| AllocatorInfo.InfoReads | Linux_kernel/HW_05_bit_maps/src/allocator.c:159-175 | read line by line the text is the map with 'X' for each used and '.' for each free one of the first 80 blocks, the number of allocations, and for each record its index, start block, block count and pointer |
| Buffer.Scnprintf | Linux_kernel/final_work_kprobe/src/stats.c:113-115 | writes the longest prefix that leaves room for the terminator, returns its length and touches nothing else |
| Buffer.ShownAppend | Linux_kernel/final_work_kprobe/src/stats.c:112-119 | printing piece by piece shows a prefix of the whole |
| Sorting.Sort | Linux_kernel/final_work_kprobe/src/stats.c:110 | the first num items become a permutation of themselves in the comparator's order |
| Sorting.BinarySearch | Linux_kernel/HW_06_binary_hashtable/src/search.c:105 | on a sorted array, an index of an item equal to the key, or -1 if and only if there is none |
| TrafficTable.RunWellKept | Linux_kernel/final_work_kprobe/src/stats.c:33-62 | after any calls each route has at most one entry, in the bucket of its key, whatever the hash |
| TrafficTable.RecordRefines | Linux_kernel/final_work_kprobe/src/stats.c:33-62 | recording in the chained table is recording in a map from routes to counters |
| TrafficTable.CountersAreSums | Linux_kernel/final_work_kprobe/src/stats.c:38-60 | after any calls a route's counters are the per-direction sums modulo 2^64 of its calls from the first that found memory; earlier ones leave no trace |
| TrafficTable.NothingLost | Linux_kernel/final_work_kprobe/src/stats.c:38-60 | with memory never short, the sums are over all calls |
| TrafficStats.TrafficStats.RecordTraffic | Linux_kernel/final_work_kprobe/src/stats.c:33-62 | the whole table after the call is that of the recording step, entries updated in place or added at the head |
| TrafficStats.TrafficStats.Exit | Linux_kernel/final_work_kprobe/src/stats.c:20-31 | every chain is emptied |
| TrafficStats.TrafficStats.Collect | Linux_kernel/final_work_kprobe/src/stats.c:93-97 | the array holds the first hundred entries in the order of the traversal, or all of them |
| TopTraffic.CollectedOrder | Linux_kernel/final_work_kprobe/src/stats.c:93-97 | the rows are collected bucket by bucket from the lowest on and each chain from its head, until there are a hundred |
| TrafficStats.TrafficStats.SortEntries | Linux_kernel/final_work_kprobe/src/stats.c:110 | the collected entries are rearranged in descending order of their wrapped totals |
| TrafficStats.PrintRows | Linux_kernel/final_work_kprobe/src/stats.c:112-119 | the loop leaves in the buffer what fits of all the lines, even when it stops early |
| TrafficStats.TrafficStats.GetTop | Linux_kernel/final_work_kprobe/src/stats.c:79-122 | the buffer holds what fits of the report of the top rows; the report reads as those rows; the buffer is emptied for an empty table and untouched without memory or for a count that is not positive |
| TopTraffic.TopMeaning | Linux_kernel/final_work_kprobe/src/stats.c:106-119 | min(n, count) rows, in descending order, none left out having a larger total |
| TopTraffic.FlattenedLookup | Linux_kernel/final_work_kprobe/src/stats.c:93-97 | the rows the traversal meets are exactly those the table's keys look up |
| TopTraffic.TopKeys | Linux_kernel/final_work_kprobe/src/stats.c:93-119 | the rows shown have different routes and the counters the table holds for them |
| BusiestRoutes.BusiestChosen | Linux_kernel/final_work_kprobe/src/stats.c:93-112 | with memory, room for all routes and 64-bit totals in the order of the true ones, the rows chosen for printing are n of the routes, the busiest by all bytes recorded, in order |
| BusiestRoutes.MissedNotBusiest | Linux_kernel/final_work_kprobe/src/stats.c:94-95 | for every hash and every m above 100 the probes can make calls on m routes after which the one busiest route is never chosen for printing |
| BusiestRoutes.WrappedNotBusiest | Linux_kernel/final_work_kprobe/src/stats.c:64-77 | for m from 2 to 100 the probes can make calls on m routes of up to 2^64 bytes after which the one busiest route is never among fewer than m chosen rows, and the chosen rows are never in order |
| BusiestRoutes.ChosenIff | Linux_kernel/final_work_kprobe/src/stats.c:93-112 | the selection step, for every hash: over m routes of at most B bytes each the rows chosen for printing are always the n busiest if and only if n or m is 0, or memory is never short, m is at most 100 and m is 1 or B below 2^64 |
| ReportText.LineLength | Linux_kernel/final_work_kprobe/src/stats.c:113-115 | a line has at most 77 characters |
| ReportText.ReportReads | Linux_kernel/final_work_kprobe/src/stats.c:112-119 | read line by line and word by word the report is, for each row in order, the four bytes of both addresses in order, the received count and the sent count |
| Reading.DottedReads | Linux_kernel/final_work_kprobe/src/stats.c:113 | splitting a printed address at its dots gives its four bytes in memory order |
| Text.DottedInjective | Linux_kernel/final_work_kprobe/src/stats.c:113-114 | different addresses print differently |
| Collector.ReadTopAddrs | Linux_kernel/final_work_kprobe/stats_exporter/internal/collector/collector.go:151-202 | the scanning loop with its early continues returns the entries of the well-formed lines in order, or the open or line-length error |
| Collector.Collector.Update | Linux_kernel/final_work_kprobe/stats_exporter/internal/collector/collector.go:126-142 | both gauge vectors are rebuilt from the entries and the count set; a failed read leaves both empty and the count as it was |
| Collector.SetAllDistinct | Linux_kernel/final_work_kprobe/stats_exporter/internal/collector/collector.go:135-138 | entries with different labels each keep their own value |
| Collector.SetAllLast | Linux_kernel/final_work_kprobe/stats_exporter/internal/collector/collector.go:135-138 | whatever the entries, a label pair shows the value of its last entry, and exactly the pairs of entries are shown |
| CollectorText.ParseReportMeaning | Linux_kernel/final_work_kprobe/stats_exporter/internal/collector/collector.go:160-201 | any text is read line by line: the entries of all its lines in order, or the error if and only if a line is too long for the scanner |
| CollectorText.ParseLineMeaning | Linux_kernel/final_work_kprobe/stats_exporter/internal/collector/collector.go:163-194 | a line gives an entry if and only if it has three parts, the last of exactly two words, both printed 64-bit numbers; labels and counts are theirs |
| CollectorText.SplitNMeaning | Linux_kernel/final_work_kprobe/stats_exporter/internal/collector/collector.go:168 | the parts with separators between them are the text, and only the last of n parts can hold a separator |
| CollectorText.FieldsMeaning | Linux_kernel/final_work_kprobe/stats_exporter/internal/collector/collector.go:176 | the fields are the parts between the spaces, empty ones left out |
| CollectorText.TrimSpaceMeaning | Linux_kernel/final_work_kprobe/stats_exporter/internal/collector/collector.go:174-175 | trimming leaves the text from its first to its last character that is no space |
| CollectorText.ParseUintMeaning | Linux_kernel/final_work_kprobe/stats_exporter/internal/collector/collector.go:182-187 | accepted are exactly the printed numbers below 2^64, leading zeros allowed |
| RoundTrip.ParseCut | Linux_kernel/final_work_kprobe/stats_exporter/internal/collector/collector.go:163-194 | any initial part of a report line parses to nothing up to the last blank, and then to its addresses, its received count and the digits left of the sent count |
| RoundTrip.ReadBack | Linux_kernel/final_work_kprobe/stats_exporter/internal/collector/collector.go:160-195 | a report cut anywhere gives back its complete lines exactly and in order, and at most one more entry, which is the one of ParseCut |
| RoundTrip.CompleteRowsExist | Linux_kernel/final_work_kprobe/src/stats.c:112-119 | every cut leaves some number of complete lines |
| RoundTrip.ReadBackWhole | Linux_kernel/final_work_kprobe/stats_exporter/internal/collector/collector.go:160-195 | a report that is not cut is read back exactly |
| RoundTrip.ReadBackIff | Linux_kernel/final_work_kprobe/src/stats.c:112-119 | printed into a buffer of any size, a report is read back exactly if and only if its text is no longer than the buffer |
| Exporter.TopAddrsGet | Linux_kernel/final_work_kprobe/src/params.c:15-19 | the returned length covers exactly the shown part of the report, and is 0 when nothing is printed |
| Exporter.GaugesShowHistory | Linux_kernel/final_work_kprobe/stats_exporter/internal/collector/collector.go:126-142 | from recorded transfers to gauges, wherever the page cuts the report: labels, which read as the addresses, are the routes of the complete lines and at most one more; all show their whole received history modulo 2^64, and their sent one, of which the one more may show less |
| Exporter.GaugesShowAll | Linux_kernel/final_work_kprobe/stats_exporter/internal/collector/collector.go:126-142 | when the text is no longer than the page, labels are exactly the shown routes and values their whole histories |
| Exporter.RecordAll | Linux_kernel/final_work_kprobe/src/stats.c:33-62 | the module's table after one call for each of some transfers is the table of that run |
| Exporter.RecordAndUpdate | Linux_kernel/final_work_kprobe/stats_exporter/internal/collector/collector.go:126-142 | module and collector run one after the other: after the recorded transfers are printed into a page and read back the collector's gauges show their histories, as in GaugesShowHistory |
| PageLimit.DigitsWithin | Linux_kernel/final_work_kprobe/src/stats.c:113-115 | the two counts of a row of at most B bytes have no more digits than MostDigits says |
| PageLimit.DigitsReached | Linux_kernel/final_work_kprobe/src/stats.c:113-115 | some counts of at most B bytes together have that many digits |
| PageLimit.FitsPageIff | Linux_kernel/final_work_kprobe/src/params.c:15-19 | whatever the probes record, the chosen rows are read back exactly through a page of 4096 characters, if and only if top_n is at most 53 |
| PageLimit.CutNotShown | Linux_kernel/final_work_kprobe/src/stats.c:112-119 | for m up to 100, B below 2^64 and min(n, m) longest lines over 4096 characters, the probes can make calls after which the page does not show the n busiest routes |
| PageLimit.TrueTopIff | Linux_kernel/final_work_kprobe/src/params.c:26 | for every hash: over m routes of at most B bytes each the reader of the page always learns the n busiest if and only if n or m is 0, or memory is never short, m is at most 100 and m is 1 or both B is below 2^64 and min(n, m) longest lines fit 4096 characters |
| PageLimit.LargeCounts | Linux_kernel/final_work_kprobe/src/params.c:15-19 | from B = 11 * 10^18 on that last condition is n or m at most 53 |
| BucketSearch.SearchContext.Clear | Linux_kernel/HW_06_binary_hashtable/src/build.c:41-53 | every chain is emptied |
| BucketSearch.SearchContext.Build | Linux_kernel/HW_06_binary_hashtable/src/build.c:14-39 | all drawn values are inserted, or after a failed allocation the table is empty and the code says so; entries stay below the array size and in their buckets; built from the empty table, it holds exactly the remainders of the drawn numbers |
| BucketSearch.SearchContext.Rebuild | Linux_kernel/HW_06_binary_hashtable/src/build.c:55-63 | the table is that of one rebuild step; after a success it holds exactly the remainders of the drawn numbers |
| BucketSearch.InsertAllContents | Linux_kernel/HW_06_binary_hashtable/src/build.c:22-35 | building adds exactly the drawn values, as a multiset |
| BucketSearch.DrawnAreRemainders | Linux_kernel/HW_06_binary_hashtable/src/build.c:23 | each value is what its random number leaves when divided by the array size |
| BucketSearch.BuiltHolds | Linux_kernel/HW_06_binary_hashtable/src/build.c:22-35 | a value is in a built table if and only if some drawn number leaves it |
| BucketSearch.StepHolds | Linux_kernel/HW_06_binary_hashtable/src/build.c:55-63 | a rebuild leaves as many entries as were drawn, their remainders, or none without memory; a search leaves all as it was |
| BucketSearch.ReachableFullOrEmpty | Linux_kernel/HW_06_binary_hashtable/src/build.c:14-63 | after any rebuilds and searches the table holds exactly array_size entries, each below it and in its bucket, or none |
| BucketSearch.SearchContext.CollectBucket | Linux_kernel/HW_06_binary_hashtable/src/search.c:42-72 | a copy of the chain in order, or the code for a bad bucket, an empty one or missing memory |
| BucketSearch.OnlyInItsBucket | Linux_kernel/HW_06_binary_hashtable/src/search.c:87-92 | a value is somewhere in the table if and only if it is in its bucket, and only if it is below the array size |
| BucketSearch.SearchContext.Search | Linux_kernel/HW_06_binary_hashtable/src/search.c:74-117 | unless memory is missing the answer is that of a scan of the whole table, early exit included; the last-result fields say the same |
| BucketSearch.SearchContext.Dump | Linux_kernel/HW_06_binary_hashtable/src/search.c:119-160 | what fits of the text of the ascending bucket, its length returned, and that text reads as bucket, length and numbers; bad bucket and missing memory leave the buffer alone |
| BucketSearch.DumpReads | Linux_kernel/HW_06_binary_hashtable/src/search.c:138-155 | read word by word the dump is one line of the bucket's number after "bucket=", the number of entries between "len=" and ":", and the values in order |
| BucketSearch.ArrangementUnique | Linux_kernel/HW_06_binary_hashtable/src/search.c:141 | a bucket has only one ascending arrangement, so the dump does not depend on how it is sorted |
| BucketSearch.DumpsCoverTable | Linux_kernel/HW_06_binary_hashtable/src/search.c:119-160 | the ascending contents of all buckets together are the whole table |
| Fifo.Queue.In | Linux_kernel/Lesson 9/fifo.c:77-93 | the insertion step: the value is appended in a new node at the end of an acyclic chain whose other nodes stay |
| Fifo.Queue.Out | Linux_kernel/Lesson 9/fifo.c:52-74 | the removal step: the first value is returned and its node leaves the chain; -1 and no change on an empty queue; both ends are null together |
| Fifo.Queue.Drain | Linux_kernel/Lesson 9/fifo.c:113-115 | the loop ends with an empty queue, having freed every node once and in order |
| Fifo.FirstInFirstOut | Linux_kernel/Lesson 9/fifo.c:52-93 | over any insertion and removal steps, values removed followed by values left are values there before followed by values inserted |
| Fifo.RemovedIsPrefix | Linux_kernel/Lesson 9/fifo.c:52-93 | from an empty queue, removed values are a prefix of inserted ones |

## Left out

- Sorting.Sort: models the contract of the kernel's sort, not its heap sort; lib/sort.c is not part of this model, and the order of equal items is left open as there.
- Collector.Collector.Update: keeps counts as integers; the conversion to float64 and the Prometheus registry are not modelled.
- Collector.ReadTopAddrs: a read that fails halfway through the file is not modelled.
- Spinlocks and concurrency: each call is one step; the report is taken over a table that does not change while it is printed, although the code drops the lock before sorting.
- Calls before initialisation or after cleanup, and null context pointers.
- Node allocation failure in the FIFO, which ends the program.
- Kernel log messages, module parameter parsing, register reading and probe registration.
- The kfifo and list.h exercises and the other lesson samples: they wrap kernel library calls and are not modelled.
- The Go social network under `Highload Architect` and the `clickhouse` projects: input and output over services that are not in the repository.

# Models and proofs for the data-structure library and the thread pool

This project models the containers under `include/ds` and the thread pool of `include/io`, and
proves what they promise for every input, every run and every interleaving.

**Roaring containers** (`RunSpec`, `RunContainer`, `Words`, `Bitset`, `BitsetContainer`,
`SortedArray`, `ArrayContainer`, `Containers`). A set of 16-bit values is kept as a run list, a
1024-word bitset or a sorted array, in buffers edited in place. The meaning of each is a plain
set; every operation is proved to be the set operation and to keep the canonical form: runs sorted,
disjoint and not touching, arrays strictly increasing, the cardinality field exact. Words are
64-bit vectors with the shift counts of the code, 32-bit wrap-around included.

**LRU caches** (`LruSpec`, `LruInclusion`, `LruNecessity`, `LruCache`, `HashLruCache`). A pure
machine on the recency list, theorems about all traces of that machine, and the cache with its
index and its linked nodes, proved to take the machine's steps; the sharded cache is made of such
cache objects. The inclusion property between two
caches is characterised exactly: it holds for all traces if and only if the bounds are nested.

**LRU cache with expiry** (`TimedLruCache`). Hash index, recency list and a set ordered by expiry
time refer to the same nodes and are proved to agree after every operation.

**Thread pool** (`ThreadPoolSpec`, `ThreadPoolSafety`, `ThreadPoolShutdown`, `ThreadPool`). A step
system whose steps are the stretches of code between lock operations, with timeouts and spurious
wake-ups at any time. When tasks can be lost, and when the destructor can sleep for ever, is
characterised exactly. The class `ThreadPool` holds the code, each method being one step.

**64-bit roaring map** (`Roaring64Spec`, `Roaring64Map`). An ordered map from high halves to sets
of low halves, some possibly empty, with rank and select over both levels in 64-bit arithmetic.

**Bucketed hash containers** (`DsUtil`, `HashBuckets`, `HashMap`, `Arena`, `Dict`,
`HashMultimap`). Ordered buckets refine a finite map through search, insertion, deletion, rehash
and the stream form. `Dict` is modelled with its memory: arrays of a node's own, the arena read
from a stream, and what has been freed.

`Memory` holds `memmove`, `realloc`, integer widths, `Option` and facts about sequences and sets.

Where code and comments disagree the code is followed: a run `{v, l}` stands for `[v, v+l]`
(`include/ds/roaring.h:2149-2155` says `v+l+1` and shows `[v, v+l]`); removing a range from a
bitset keeps a bitset of exactly 4096 values although such a set should be an array; the union of a
run container is measured without, the difference with the two bytes of its serialized header.

## Model

| member | source | states |
|---|---|---|
| RunSpec.Cardinality | include/ds/roaring.h:2437-2448 | a canonical run list has as many values as runs plus the sum of the length fields |
| RunSpec.CanonicalUnique | include/ds/roaring.h:2518-2533 | two canonical run lists (sorted, disjoint, not touching) of the same set are the same list |
| RunSpec.Cut | include/ds/roaring.h:2804-2849 | the runs a..b that meet [min,max], replaced by what the first keeps on the left and the last on the right, give a canonical list of exactly the old set minus [min,max] |
| RunSpec.FoundTouched | include/ds/roaring.h:2804-2849 | two searches, for min and for max, delimit exactly the runs that meet [min,max] |
| RunSpec.Join | include/ds/roaring.h:2749-2773 | the runs a..b that overlap or touch [min,max], replaced by one run over all of them, give a canonical list of exactly the old set plus [min,max] |
| RunSpec.RangeInOneRun | include/ds/roaring.h:2380-2401 | because runs do not touch, a range is covered exactly when the run that holds its start reaches its end |
| RunContainers.RunCount | include/ds/roaring.h:2312-2321 | a canonical list has at most 32768 runs, so 16-bit indices suffice |
| RunContainers.InterleavedBinarySearch | include/ds/roaring.h:2216-2232 | returns the run that starts at the key, or -(p+1) where all starts before p are smaller and all from p on larger |
| RunContainers.FindRun | include/ds/roaring.h:2237-2254 | returns the run that contains the key, or the exact gap it falls into |
| RunContainers.CountLess | include/ds/roaring.h:2262-2280 | counts exactly the runs that end too early to overlap or touch the key |
| RunContainers.CountGreater | include/ds/roaring.h:2282-2300 | counts exactly the runs that start too late to overlap or touch the key |
| RunContainers.MissSplits | include/ds/roaring.h:2364-2374 | after a miss only the run just before the insertion point can contain the key, and it decides membership |
| RunContainers.DropRun | include/ds/roaring.h:2329-2332 | dropping a one-value run is canonical and removes that value |
| RunContainers.TrimHead | include/ds/roaring.h:2333-2335 | moving the start of a run up by one is canonical and removes its first value |
| RunContainers.TrimTail | include/ds/roaring.h:2354-2356 | shortening a run by one is canonical and removes its last value |
| RunContainers.SplitOne | include/ds/roaring.h:2343-2352 | overwriting the left half, making room and writing the right half is canonical and removes the one value between |
| RunContainers.Ends | include/ds/roaring.h:2805-2848 | what the signs and values of the two searches say about the outer runs, including when both name the same run |
| RunContainers.TrimmedStays | include/ds/roaring.h:2823-2840 | reading the last run after the first was trimmed is sound even when both are the same run |
| RunContainers.SplitRemoved | include/ds/roaring.h:2808-2821 | a range strictly inside one run: making room and writing two halves removes exactly the range |
| RunContainers.TrimRemoved | include/ds/roaring.h:2823-2848 | left trim, right trim and dropping the runs between remove exactly the range, in every combination |
| RunContainers.AppendMerges | include/ds/roaring.h:2483-2497 | appending a run at the end joins it with the last one exactly when they overlap or touch, and adds exactly its values |
| RunContainers.AppendedCanonical | include/ds/roaring.h:2518-2533 | appending a value not below the last run start keeps the list canonical |
| RunContainers.AppendedDenotes | include/ds/roaring.h:2518-2533 | appending a value adds exactly that value |
| RunContainers.FromSortedExact | include/ds/roaring.h:2518-2549 | folding append over any strictly increasing sequence gives the unique canonical list of its set |
| RunContainers.AppendedCounts | include/ds/roaring.h:2518-2549 | in that fold, runs plus length fields equal the number of values appended |
| RunContainers.FullRun | include/ds/roaring.h:2553-2556 | a canonical list holds all 65536 values exactly when it is the single run {0, 65535} |
| RunContainers.RunContainer.CreateRange | include/ds/roaring.h:2686-2696 | the container of one run holds exactly [start, stop) |
| RunContainers.RunContainer.RecoverRoomAtIndex | include/ds/roaring.h:2207-2211 | the buffer move drops exactly the run at the index |
| RunContainers.RunContainer.MakeRoomAtIndex | include/ds/roaring.h:2312-2321 | the buffer is grown if full, a hole opens at the index and every other run keeps its order |
| RunContainers.RunContainer.ShiftTail | include/ds/roaring.h:2788-2799 | a left shift of the tail drops exactly the runs it moves over, a right shift keeps all runs and opens a hole |
| RunContainers.RunContainer.Contains | include/ds/roaring.h:2364-2374 | true exactly for members |
| RunContainers.RunContainer.ContainsRange | include/ds/roaring.h:2380-2401 | for a non-empty range, true exactly if every value of [start,end) is a member, decided by a count over runs; false for the empty range |
| RunContainers.RunContainer.Cardinality | include/ds/roaring.h:2437-2448 | the number of members |
| RunContainers.RunContainer.IsFull | include/ds/roaring.h:2553-2556 | true exactly for the set of all 16-bit values |
| RunContainers.RunContainer.Minimum | include/ds/roaring.h:2715-2718 | the least member, 0 for the empty set |
| RunContainers.RunContainer.Maximum | include/ds/roaring.h:2721-2724 | the greatest member, 0 for the empty set |
| RunContainers.RunContainer.Append | include/ds/roaring.h:2483-2497 | adds exactly the values of the run, keeps the list canonical and returns the new last run |
| RunContainers.RunContainer.AppendFirst | include/ds/roaring.h:2502-2507 | the first run of an empty container |
| RunContainers.RunContainer.AppendValue | include/ds/roaring.h:2518-2533 | performs one step of the fold, returning the new last run |
| RunContainers.RunContainer.AppendValueFirst | include/ds/roaring.h:2539-2549 | the first step of the fold |
| RunContainers.RunContainer.AppendSorted | include/ds/roaring.h:2518-2549 | the loop over a strictly increasing sequence leaves exactly its set in the buffer, in canonical form |
| RunContainers.RunContainer.CoveringRun | include/ds/roaring.h:2380-2401 | the run that holds the start of a range, by bisection |
| RunContainers.RunContainer.Remove | include/ds/roaring.h:2327-2361 | removes one value through all four shapes, stays canonical and reports whether it was present |
| RunContainers.RunContainer.AddRangeNruns | include/ds/roaring.h:2749-2773 | with the right counts of runs below and above, the result is the old set plus [min,max], canonical, with the predicted number of runs |
| RunContainers.RunContainer.AddRange | include/ds/roaring.h:2778-2783 | the old set plus [min,max], canonical, for every canonical list and every range |
| RunContainers.RunContainer.RemoveRange | include/ds/roaring.h:2804-2849 | the old set minus [min,max], canonical, for every canonical list and every range |
| RunContainers.RunContainer.SplitAround | include/ds/roaring.h:2808-2821 | the in-place split of one run around the range |
| RunContainers.RunContainer.TrimAround | include/ds/roaring.h:2823-2848 | the in-place trims and the deletion of the runs between |
| Words.LeftBit | include/ds/roaring.h:729-744 | a left shift moves every bit by the shift count; the definition the masks rest on |
| Words.FirstMask | include/ds/roaring.h:668-681 | the mask shifted left by start % 64 selects exactly the bits of its word at or after start |
| Words.LastMask | include/ds/roaring.h:668-681 | the mask shifted right by (-end) % 64, a 32-bit wrap-around, selects exactly the bits of its word before end |
| Words.BlockMask | include/ds/roaring.h:729-744 | the mask shifted right by (63 - n) % 64 and left by start % 64 selects exactly n + 1 bits from start |
| Words.Apply | include/ds/roaring.h:668-681 | or, and-not and xor with a mask set, clear and flip exactly the selected bits |
| Bitset.RangedParts | include/ds/roaring.h:668-681 | setting, clearing and flipping a range, position by position: inside the range the bit is set, cleared or flipped, outside it is as before |
| Bitset.ByWords | include/ds/roaring.h:668-681 | two edge words combined with their masks and the words between overwritten change exactly the bits of the range |
| Bitset.EdgeMasks | include/ds/roaring.h:762-775 | the masks of the first, last or only word of a range select exactly the bits of the range |
| Bitset.SetRange | include/ds/roaring.h:668-681 | sets exactly the bits of [start,end) |
| Bitset.LenShift | include/ds/roaring.h:729-744 | the shift counts of the length form equal those of the end form despite wrap-around |
| Bitset.SetLenRange | include/ds/roaring.h:729-744 | sets exactly the bits of [start, start+n], although the two-word loop may overwrite the end word before it is restored |
| Bitset.FlipRange | include/ds/roaring.h:749-757 | flips exactly the bits of [start,end), the low bits of the first word being flipped twice |
| Bitset.ResetRange | include/ds/roaring.h:762-775 | clears exactly the bits of [start,end) |
| Bitset.MaskedCount | include/ds/roaring.h:687-704 | the population count of a masked word is the number of set bits of that word inside the range |
| Bitset.CountSet | include/ds/roaring.h:687-704 | the bit count over a range is the cardinality of the set of positions in it |
| Bitset.LenRangeCardinality | include/ds/roaring.h:687-704 | returns the number of set bits in [start, start+n] |
| Bitset.LenRangeEmpty | include/ds/roaring.h:709-723 | true exactly if no bit of [start, start+n] is set |
| BitsetContainers.RangedMembers | include/ds/roaring.h:668-681 | a range operation on the bits is the same operation on the set |
| BitsetContainers.InclusionExclusion | include/ds/roaring.h:5823-5826 | sizes of the union with and difference from a range follow from the number of members inside it |
| BitsetContainers.OneWord | include/ds/roaring.h:1796-1818 | writing one word adds or removes exactly one member |
| BitsetContainers.ReadBit | include/ds/roaring.h:1796-1825 | the bit read is membership, and the old word xor the new one shifted down is the change of cardinality |
| BitsetContainers.FullEdge | include/ds/roaring.h:1833-1856 | a word contains its mask exactly when its part of the range is full |
| BitsetContainers.BitsetContainer.Add | include/ds/roaring.h:1796-1805 | adds one value, keeps the cardinality exact, reports whether it was new |
| BitsetContainers.BitsetContainer.Remove | include/ds/roaring.h:1809-1818 | removes one value, keeps the cardinality exact, reports whether it was present |
| BitsetContainers.BitsetContainer.Get | include/ds/roaring.h:1821-1825 | true exactly for members |
| BitsetContainers.BitsetContainer.GetRange | include/ds/roaring.h:1833-1856 | true exactly if every value of [start,end) is a member, by masks, the empty range included |
| SortedArray.Dense | include/ds/roaring.h:1550-1564 | in a strictly increasing array an index distance equals the value distance exactly when nothing between is missing |
| SortedArray.BelowCount | include/ds/roaring.h:391-396 | the split point of a key is the number of smaller members |
| SortedArray.Inserted | include/ds/roaring.h:1468-1496 | inserting an absent value at its split point adds exactly it |
| SortedArray.Deleted | include/ds/roaring.h:1504-1515 | dropping an entry removes exactly its value |
| SortedArray.Replaced | include/ds/roaring.h:1637-1644 | dropping the entries between two split points removes exactly the range |
| SortedArray.Filled | include/ds/roaring.h:1607-1622 | replacing the entries between two split points by all values of the range adds exactly the range |
| ArrayContainers.BinarySearch | include/ds/roaring.h:317-333 | returns the index of the key or -(p+1) for its insertion point |
| ArrayContainers.AdvanceUntil | include/ds/roaring.h:342-385 | returns the least index after pos whose value is at least min, or the length; doubling and bisection end; from a position at or past the end it is pos + 1 |
| ArrayContainers.CountLess | include/ds/roaring.h:391-396 | the number of values below the key |
| ArrayContainers.CountGreater | include/ds/roaring.h:402-411 | the number of values above the key |
| ArrayContainers.ArrayContainer.Append | include/ds/roaring.h:1450-1459 | appends a value above all others |
| ArrayContainers.ArrayContainer.TryAdd | include/ds/roaring.h:1468-1496 | 1, 0 or -1 exactly for added, present and full; the set changes only for 1 |
| ArrayContainers.ArrayContainer.Add | include/ds/roaring.h:1499-1501 | adds a value and reports whether it was new |
| ArrayContainers.ArrayContainer.Remove | include/ds/roaring.h:1504-1515 | removes a value and reports whether it was present |
| ArrayContainers.ArrayContainer.Contains | include/ds/roaring.h:1518-1547 | true exactly for members, by bisection and a final scan |
| ArrayContainers.ArrayContainer.ContainsRange | include/ds/roaring.h:1550-1564 | for a non-empty range, true exactly if every value of [start,end) is a member, from two index positions; for an empty range true exactly if its start is 0 modulo 2^16 and the set is full |
| ArrayContainers.ArrayContainer.Rank | include/ds/roaring.h:1579-1587 | the number of members up to x |
| ArrayContainers.ArrayContainer.AddRangeNvals | include/ds/roaring.h:1607-1622 | with the right counts below and above, the result is the old set plus the range, strictly increasing |
| ArrayContainers.ArrayContainer.AddRange | include/ds/roaring.h:1627-1632 | the old set plus the range |
| ArrayContainers.ArrayContainer.DropEntries | include/ds/roaring.h:1637-1644 | drops exactly the given entries in place |
| Containers.AddRange | include/ds/roaring.h:5815-5881 | union with [min,max] whichever representation comes in; which one comes out, the full run exactly at 65536 members, and when the container is kept |
| Containers.AddRangeBitset | include/ds/roaring.h:5820-5837 | the bitset branch: cardinality by inclusion-exclusion, full run exactly when full |
| Containers.AddRangeArray | include/ds/roaring.h:5838-5859 | the array branch: array up to 4096 values, full run at 65536, else a bitset |
| Containers.AddRangeRun | include/ds/roaring.h:5860-5877 | the run branch: stays a run container exactly if the canonical list of the union takes at most 8192 bytes |
| Containers.RemoveRange | include/ds/roaring.h:5893-5957 | difference with [min,max] whichever representation comes in; no container exactly when nothing is left |
| Containers.RemoveRangeBitset | include/ds/roaring.h:5897-5916 | the bitset branch: an array exactly below 4096 members |
| Containers.RemoveRangeArray | include/ds/roaring.h:5917-5932 | the array branch |
| Containers.RemoveRangeRun | include/ds/roaring.h:5933-5953 | the run branch: stays a run container exactly if the serialized canonical list takes at most 8192 bytes |
| Containers.UnionSizeByCounts | include/ds/roaring.h:5841-5843 | the sizes of union and difference follow from the counts of values below and above the range |
| Containers.AddThenRemove | include/ds/roaring.h:5815-5957 | adding a range and then removing it leaves the old set without the range, through whatever changes of representation; no container exactly if the range covered everything |
| Containers.JoinCount | include/ds/roaring.h:5863-5866 | every canonical list of the union has the number of runs the two counts predict |
| Roaring64Spec.Halves | include/ds/roaring.hh:1688-1693 | high and low halves and their union are inverse, and order is that of the pair |
| Roaring64Spec.AtPlaced | include/ds/roaring.hh:919-922 | a new map node changes what is stored under its key alone |
| Roaring64Spec.AtChanged | include/ds/roaring.hh:1040-1048 | changing one node changes what is stored under its key alone |
| Roaring64Spec.SumCounts | include/ds/roaring.hh:1110-1122 | the sum of the sub-bitmap sizes is the number of members |
| Roaring64Spec.RankCounts | include/ds/roaring.hh:1368-1387 | what the rank loop adds up is the number of members up to x |
| Roaring64Spec.RankSplit | include/ds/roaring.hh:1368-1387 | it is the same whether or not the high key has a node |
| Roaring64Spec.FullIff | include/ds/roaring.hh:1137-1155 | all 2^64 values are members exactly when every high key has a saturated sub-bitmap |
| Roaring64Spec.RankWraps | include/ds/roaring.hh:1368-1387 | the 64-bit rank is the true count except for the largest value of a full bitmap, where it wraps to 0 |
| Roaring64Spec.RankInjective | include/ds/roaring.hh:1351-1363 | two members of equal rank are equal, so selection undoes rank |
| Roaring64Maps.SelectAtRank | include/ds/roaring.hh:1351-1387 | selecting at the rank of a member less one gives the member back |
| Roaring64Maps.Roaring64Map.Add | include/ds/roaring.hh:919-922 | adds exactly one 64-bit value |
| Roaring64Maps.Roaring64Map.Remove | include/ds/roaring.hh:961-965 | removes exactly one 64-bit value; an absent high key is left absent |
| Roaring64Maps.Roaring64Map.Contains | include/ds/roaring.hh:1028-1032 | true exactly for members |
| Roaring64Maps.Roaring64Map.Intersect | include/ds/roaring.hh:1040-1048 | intersection, although emptied sub-bitmaps stay in the map |
| Roaring64Maps.Roaring64Map.Subtract | include/ds/roaring.hh:1056-1062 | difference |
| Roaring64Maps.Roaring64Map.Unite | include/ds/roaring.hh:1071-1080 | union, copying missing nodes |
| Roaring64Maps.Roaring64Map.SymmetricDifference | include/ds/roaring.hh:1088-1097 | symmetric difference |
| Roaring64Maps.Roaring64Map.IsEmpty | include/ds/roaring.hh:1127-1132 | true exactly for the empty set, even with empty sub-bitmaps in the map |
| Roaring64Maps.Roaring64Map.IsFull | include/ds/roaring.hh:1137-1155 | true exactly for the set of all 2^64 values |
| Roaring64Maps.Roaring64Map.Cardinality | include/ds/roaring.hh:1110-1122 | the number of members without overflow, or the exception exactly when the bitmap is full |
| Roaring64Maps.Roaring64Map.Rank | include/ds/roaring.hh:1368-1387 | the number of members up to x, modulo 2^64, for every x |
| Roaring64Maps.Roaring64Map.Select | include/ds/roaring.hh:1351-1363 | fails exactly when rank >= cardinality, else returns the member with exactly that many smaller ones, so its rank is one more |
| LruSpec.RunDistinct | include/ds/lru_cache.hpp:46-60 | after every trace each key stands once in the recency list |
| LruSpec.RunBounded | include/ds/lru_cache.hpp:177-197 | a bounded cache never holds max + slack entries, slack being the elasticity, but 1 if that is 0 or the sum overflows 64 bits |
| LruSpec.PrunedBySlack | include/ds/lru_cache.hpp:177-197 | pruning depends on the two parameters only through max and slack |
| LruSpec.Unbounded | include/ds/lru_cache.hpp:46-76 | without a bound every lookup answers as a plain map run on the same trace |
| LruInclusion.FamiliarStep | include/ds/lru_cache.hpp:46-106 | one step on a key the larger cache knows keeps the smaller list a subsequence of the larger |
| LruInclusion.Tight | include/ds/lru_cache.hpp:177-197 | with slack 1 on both sides, after every trace the smaller list is a subsequence of the larger and behind it by no more than the difference of the maxima |
| LruInclusion.Inclusion | include/ds/lru_cache.hpp:46-132 | nested bounds: after every trace the smaller recency list is a subsequence of the larger, values included |
| LruInclusion.SameHits | include/ds/lru_cache.hpp:62-92 | every hit in the smaller cache is the same hit in the larger, and returns the last value set |
| LruInclusion.SubOrder | include/ds/lru_cache.hpp:46-76 | what being a subsequence means: entries of the smaller list stand in the larger one in the same order |
| LruNecessity.Separation | include/ds/lru_cache.hpp:177-197 | for every pair of bounds that is not nested there is a trace after which the first cache holds an entry the second does not |
| LruNecessity.InclusionIff | include/ds/lru_cache.hpp:177-197 | inclusion over all traces holds if and only if the bounds are nested: the exact condition on capacities and elasticities |
| LruCaches.Agree | include/ds/lru_cache.hpp:46-76 | in a well-formed cache looking a key up in the index and in the recency list is the same |
| LruCaches.IndexedRemoved | include/ds/lru_cache.hpp:94-106 | unlinking a node and erasing its key keeps index and list in agreement |
| LruCaches.IndexedMoved | include/ds/lru_cache.hpp:71 | splicing a node to the front keeps index and list in agreement |
| LruCaches.FromBackAt | include/ds/lru_cache.hpp:184-194 | the entries dropped from the back are the least recent ones, last first |
| LruCaches.WithoutIndex | include/ds/lru_cache.hpp:94-106 | leaving a key out is cutting its one entry out of the list, the others in their order |
| LruCaches.LruCache.Set | include/ds/lru_cache.hpp:46-60 | an overwritten key moves to the front and nothing is dropped; a new key goes to the front and the list is cut to its first `maxSize` entries exactly when it has reached the allowed size; the callback gets each entry cut off, the last first |
| LruCaches.LruCache.Get | include/ds/lru_cache.hpp:62-92 | returns the stored value and moves the entry to the front, or changes nothing |
| LruCaches.LruCache.Del | include/ds/lru_cache.hpp:94-106 | removes the entry from both structures and reports whether it was there |
| LruCaches.LruCache.Exists | include/ds/lru_cache.hpp:108-112 | true exactly for present keys |
| LruCaches.LruCache.Size | include/ds/lru_cache.hpp:114-118 | the length of the recency list |
| LruCaches.LruCache.Clear | include/ds/lru_cache.hpp:126-132 | empties both structures |
| LruCaches.LruCache.Prune | include/ds/lru_cache.hpp:177-197 | the list is cut to its first `maxSize` entries exactly when it has reached the allowed size; the callback gets each entry cut off, the last first, and their number is returned |
| HashLruCaches.Shares | include/ds/lru_cache.hpp:217-231 | the shares add up to at least the capacity and to less than one share too many; only 0 is shared out as 0 |
| HashLruCaches.ShardRuns | include/ds/lru_cache.hpp:241-292 | each shard is an LRU cache of its own, run on the calls its hash routes to it |
| HashLruCaches.CallReaches | include/ds/lru_cache.hpp:241-294 | a call for a key makes a step in the shard `hash(k) % buckets` and in no other; clearing empties all |
| HashLruCaches.Homed | include/ds/lru_cache.hpp:241-264 | after every run each entry lies in the shard of its hash modulo the number of shards |
| HashLruCaches.ModelRouted | include/ds/lru_cache.hpp:241-292 | for the keys of a shard a plain map cannot tell the routed calls from all calls |
| HashLruCaches.ShardedHits | include/ds/lru_cache.hpp:246-254 | every hit returns the last value set; with capacity 0 every lookup answers as a plain map |
| HashLruCaches.HashLruCache.constructor | include/ds/lru_cache.hpp:217-231 | as many empty caches as asked for, each with the bounds divided by their number and rounded up |
| HashLruCaches.HashLruCache.Set | include/ds/lru_cache.hpp:241-244 | the shard `hash(k) % buckets` alone makes the step of one cache; the entry is at its front; shards share no node |
| HashLruCaches.HashLruCache.Get | include/ds/lru_cache.hpp:246-254 | the shard `hash(k) % buckets` alone makes the step and gives the answer; every hit returns the last value set, and without a bound it answers as a plain map |
| HashLruCaches.HashLruCache.Del | include/ds/lru_cache.hpp:256-259 | the shard `hash(k) % buckets` alone makes the step; true exactly for keys it holds |
| HashLruCaches.HashLruCache.Exists | include/ds/lru_cache.hpp:261-264 | true exactly if the shard `hash(k) % buckets` holds the key, which is exactly if any shard does |
| HashLruCaches.HashLruCache.AtHome | include/ds/lru_cache.hpp:241-264 | the same for the cache objects |
| HashLruCaches.HashLruCache.Size | include/ds/lru_cache.hpp:266-274 | the number of keys that some shard holds, less than one share above the capacity for elasticity shares up to 1 |
| HashLruCaches.HashLruCache.Clear | include/ds/lru_cache.hpp:288-294 | every shard is emptied |
| HashLruCaches.ShardedBound | include/ds/lru_cache.hpp:266-274 | the bound on the total size, less than one share above the capacity for elasticity shares up to 1 |
| TimedLruCaches.ErasedExactly | include/ds/timed_lru_cache.hpp:40-54 | in an ordered set the search by (ts,key) finds the node itself, so erase removes exactly it |
| TimedLruCaches.OrderedInserted | include/ds/timed_lru_cache.hpp:40-54 | inserting a node with a key of its own keeps strict (ts,key) order and adds exactly it |
| TimedLruCaches.ChangeBeforeErase | include/ds/timed_lru_cache.hpp:84-88 | why the node must be erased before its time changes: in every set that is ordered but for the changed node, the search finds it if and only if it comes after its predecessor; else the erase does nothing and the node ends up in the set twice |
| TimedLruCaches.FirstLeast | include/ds/timed_lru_cache.hpp:219-236 | the first node of the expiry set is the entry of the list that expires first |
| TimedLruCaches.TimedErased | include/ds/timed_lru_cache.hpp:77-96 | after the erase the rest of the set holds the other nodes, all with other keys |
| TimedLruCaches.TimedReturned | include/ds/timed_lru_cache.hpp:77-96 | putting the node back with any time restores agreement of list and set |
| TimedLruCaches.UnexpiredMembers | include/ds/timed_lru_cache.hpp:214-238 | what a timeout check leaves is exactly the entries with ts > t |
| TimedLruCaches.LaterThanFirst | include/ds/timed_lru_cache.hpp:219-236 | if the first node of the set is not expired none is, so the walk may stop |
| TimedLruCaches.TimedLruCache.Set | include/ds/timed_lru_cache.hpp:77-96 | index, list and expiry set keep holding the same items; the entry expires at `expired + now` in 64 bits; the list is cut and the callback called as in the cache without expiry |
| TimedLruCaches.TimedLruCache.Restamp | include/ds/timed_lru_cache.hpp:81-90 | splice, erase, new value and time, insert: all three structures agree again |
| TimedLruCaches.TimedLruCache.Get | include/ds/timed_lru_cache.hpp:98-128 | returns the value and moves the entry to the front, or changes nothing |
| TimedLruCaches.TimedLruCache.Drop | include/ds/timed_lru_cache.hpp:219-236 | takes a node out of all three structures, the rest untouched |
| TimedLruCaches.TimedLruCache.Del | include/ds/timed_lru_cache.hpp:130-143 | removes the entry from all three structures |
| TimedLruCaches.TimedLruCache.Clear | include/ds/timed_lru_cache.hpp:163-170 | empties all three structures |
| TimedLruCaches.TimedLruCache.CheckTimeout | include/ds/timed_lru_cache.hpp:214-238 | removes exactly the entries with ts <= t, keeps the others in order, returns how many went; the callback gets each once, in order of expiry |
| TimedLruCaches.TimedLruCache.Prune | include/ds/timed_lru_cache.hpp:241-262 | in all three structures the list is cut to its first `maxSize` entries exactly when it has reached the allowed size; the callback gets each entry cut off, the last first |
| ThreadPoolSpec.Keep | include/io/thread_pool.hpp:99-374 | every step of submitters, workers and destructor conserves tasks and keeps the counters exact |
| ThreadPoolSpec.Meaning | include/io/thread_pool.hpp:285-374 | idle and task counters never underflow, tasks are taken in the order accepted, and each accepted task is queued, in one hand or run |
| ThreadPoolSpec.KeepSubmit | include/io/thread_pool.hpp:168-218 | a submission, accepted or rejected, with or without a new thread |
| ThreadPoolSpec.KeepPass | include/io/thread_pool.hpp:295-357 | a worker under the lock: pop, wait or leave |
| ThreadPoolSpec.KeepMoved | include/io/thread_pool.hpp:317-369 | timeouts, reaping and the steps outside the lock |
| ThreadPoolSpec.KeepDestructor | include/io/thread_pool.hpp:99-108 | the steps of the destructor |
| ThreadPoolSpec.NoneSleeps | include/io/thread_pool.hpp:168-218 | every step keeps: while tasks wait, no worker sleeps on the condition |
| ThreadPoolSafety.NoTaskLost | include/io/thread_pool.hpp:99-374 | if each accepted task leaves a manned pool, then when the thread table is empty every accepted task has been taken in order and has run exactly as often as submitted |
| ThreadPoolSafety.NoTaskLostBeforeShutdown | include/io/thread_pool.hpp:99-374 | started with one thread or more and nothing submitted after shutdown begins: no task is lost, in both modes and all interleavings |
| ThreadPoolSafety.InsideSafe | include/io/thread_pool.hpp:168-218 | a task submitted by a running task of the pool is safe even during shutdown |
| ThreadPoolSafety.LossIff | include/io/thread_pool.hpp:295-357 | from any state with tasks waiting, some schedule strands them if and only if the pool is not manned |
| ThreadPoolSafety.MannedKept | include/io/thread_pool.hpp:285-374 | while tasks wait no step but a submission unmans the pool, reaping included |
| ThreadPoolSafety.SingleWorkerInOrder | include/io/thread_pool.hpp:285-374 | one fixed thread runs tasks in the order accepted |
| ThreadPoolSafety.NoLostWakeUp | include/io/thread_pool.hpp:168-218 | no lost wake-up: after every run, while tasks wait, no worker sleeps on the condition |
| ThreadPoolShutdown.MeasureDrops | include/io/thread_pool.hpp:99-374 | once the destructor holds the lock every step of the pool itself brings it nearer to rest |
| ThreadPoolShutdown.ShutdownBounded | include/io/thread_pool.hpp:99-374 | so every such schedule is finite: at most four steps for each waiting task, five for each worker and one for the destructor |
| ThreadPoolShutdown.NextStep | include/io/thread_pool.hpp:99-374 | a stopping pool has a next step unless the destructor is done or asleep on an empty table |
| ThreadPoolShutdown.ComesToRest | include/io/thread_pool.hpp:99-108 | a schedule that cannot go on has ended with the pool destroyed or with the destructor asleep on an empty table |
| ThreadPoolShutdown.StuckIff | include/io/thread_pool.hpp:317-336 | some schedule leaves the destructor asleep on an empty table if and only if the pool is cached, may grow and accepts tasks: reaping does not notify |
| ThreadPoolShutdown.DestructorReturns | include/io/thread_pool.hpp:99-108 | in every other pool each schedule that goes on as long as it can ends with the destructor returned |
| ThreadPools.ThreadPool.constructor | include/io/thread_pool.hpp:228-268 | `start` makes and then starts every thread: the initial state |
| ThreadPools.ThreadPool.SubmitTask | include/io/thread_pool.hpp:168-218 | accepted exactly if the queue has room; an accepted task wakes every waiting worker, and brings a new thread exactly if the pool is cached, more tasks than idle threads are there and the limit allows it |
| ThreadPools.ThreadPool.TakeOrLeave | include/io/thread_pool.hpp:295-357 | the first task of the queue is taken; without one the worker waits, or leaves a pool that is shutting down and wakes its destructor |
| ThreadPools.ThreadPool.TimeOut | include/io/thread_pool.hpp:317-336 | a timed-out worker leaves exactly if it idled long enough and there are more threads than at the start |
| ThreadPools.ThreadPool.BeginTask | include/io/thread_pool.hpp:359-360 | off the idle count |
| ThreadPools.ThreadPool.RunTask | include/io/thread_pool.hpp:362-366 | a task taken runs once |
| ThreadPools.ThreadPool.FinishTask | include/io/thread_pool.hpp:368-369 | back on the idle count |
| ThreadPools.ThreadPool.Shutdown | include/io/thread_pool.hpp:99-108 | flag, lock, notification and first test of the thread table |
| ThreadPools.ThreadPool.WaitForWorkers | include/io/thread_pool.hpp:105-107 | done exactly if the thread table is empty |
| DsUtil.BasketLeast | include/ds/ds_util.hpp:266-269 | for 1 <= n < 2^30 the table size is the least power of two above n |
| DsUtil.BasketIff | include/ds/ds_util.hpp:266-269 | with the conversion of the 64-bit count to a 32-bit signed one, the size exceeds the count if and only if 1 <= count < 2^30 |
| DsUtil.Converted | include/ds/ds_util.hpp:266-269 | the converted count is the one 32-bit signed number congruent to the 64-bit count |
| DsUtil.BasketSign | include/ds/ds_util.hpp:266-269 | a negative count asks for the table of its absolute value; from 2^29 on the table has 2^30 buckets |
| DsUtil.RehashGrows | include/ds/hash_map.hpp:320-365 | a rehash that is due below 2^30 keys gives more buckets than keys and more than sixteen times the old number |
| DsUtil.Regrown | include/ds/hash_map.hpp:320-365 | what the rehash step does to the size and to the load bound total <= 16 * buckets + 1 of an insert |
| DsUtil.ReliefBelow | include/ds/hash_map.hpp:320-365 | below 2^31 keys every rehash brings the load under the test, whatever the table |
| DsUtil.ReliefIff | include/ds/hash_map.hpp:320-365 | a rehash that falls due one key beyond the load test always has a defined size, and brings the load back under the test if and only if the table has fewer than 2^28 buckets; from there on it asks for two buckets |
| DsUtil.SearchFinds | include/ds/ds_util.hpp:271-284 | in a sorted list the search finds every key that is there, at its place if keys are unique |
| DsUtil.SortLast | include/ds/ds_util.hpp:286-304 | a sorted list with one node appended becomes sorted, with the same nodes |
| DsUtil.Rearranged | include/ds/ds_util.hpp:286-304 | rearranging keeps members and uniqueness |
| HashBuckets.Find | include/ds/hash_map.hpp:68-93 | the search in the bucket of its hash finds a key exactly if the represented map has it |
| HashBuckets.BucketAdded | include/ds/hash_map.hpp:109-119 | appending and sorting down adds exactly one entry to the bucket |
| HashBuckets.BucketDropped | include/ds/hash_map.hpp:140-152 | swapping with the last node, cutting and sorting drops exactly one entry |
| HashBuckets.BucketSet | include/ds/hash_map.hpp:120-124 | overwriting a value changes exactly one entry |
| HashBuckets.FlatLists | include/ds/hash_map.hpp:214-224 | the nodes of all buckets are the entries of the map, each once |
| HashBuckets.Homes | include/ds/hash_map.hpp:95-127 | in a table of a map each node lies in the bucket of its hash modulo the number of buckets, and each bucket is in key order |
| HashBuckets.FlatOrdered | include/ds/hash_map.hpp:207-237 | the nodes of all buckets come ordered by hash modulo the number of buckets, then by key |
| HashBuckets.SpreadRepresents | include/ds/hash_map.hpp:320-345 | nodes spread by hash and sorted represent the map they list |
| HashBuckets.Spread | include/ds/hash_map.hpp:327-340 | the spreading loop does that for every table size |
| HashBuckets.TableUnique | include/ds/hash_map.hpp:239-285 | a map has one table of each size, so reading back what was written restores the same buckets |
| HashBuckets.PutIn | include/ds/hash_map.hpp:109-119 | a new node at the end of its bucket, sorted down: the table represents the map with the new entry |
| HashBuckets.CutOut | include/ds/hash_map.hpp:140-152 | a node swapped to the end, cut off and the bucket sorted: the table represents the map without the key |
| HashBuckets.Rehashed | include/ds/hash_map.hpp:320-365 | the same map in a table of the size for its count if the load test holds, else the same table |
| HashBuckets.Found | include/ds/hash_map.hpp:68-82 | the value that `get` finds is the map's value |
| HashMaps.HashMap.constructor | include/ds/hash_map.hpp:24-29 | an empty table of the size for n |
| HashMaps.HashMap.Get | include/ds/hash_map.hpp:68-82 | the value of the represented map |
| HashMaps.HashMap.Exists | include/ds/hash_map.hpp:84-93 | the domain of the represented map |
| HashMaps.HashMap.Set | include/ds/hash_map.hpp:95-127 | the map with k set to v; true exactly for new keys; the table is resized exactly if it held more than sixteen keys a bucket; the load bound total <= 16 * buckets + 1, where it held, is kept if and only if no rehash was due or the table had fewer than 2^28 buckets |
| HashMaps.HashMap.Del | include/ds/hash_map.hpp:129-153 | the map without k; true exactly if it was there; the table keeps its size |
| HashMaps.HashMap.Homed | include/ds/hash_map.hpp:95-127 | each node lies in the bucket of its hash modulo the number of buckets, in key order |
| HashMaps.HashMap.Rehash | include/ds/hash_map.hpp:187-194 | the same map in a table of the size for its count, only if the load test holds; below 2^31 keys the load ends under the test, below 2^30 under 1; one key beyond the test it does so exactly for fewer than 2^28 buckets |
| HashMaps.HashMap.Merge | include/ds/hash_map.hpp:172-185 | the map overridden by the other one, also when both are the same object; the load bound is kept up to 2^32 + 1 keys together |
| HashMaps.HashMap.WriteTo | include/ds/hash_map.hpp:207-237 | the table size and every entry once, ordered by hash modulo the number of buckets, then by key |
| HashMaps.HashMap.ReadFrom | include/ds/hash_map.hpp:239-292 | reading what was written restores the map, the size and the count; a stream that ends early fails |
| HashMaps.RoundTrip | include/ds/hash_map.hpp:207-292 | writing one map and reading it into another gives the same entries, count and table size |
| Arenas.TilesApart | include/ds/dich.hpp:221-231 | offsets that tile the arena cut it into disjoint slices |
| Arenas.NextTile | include/ds/dich.hpp:221-231 | writing one more value array extends the tiling and leaves earlier slices as they were |
| Arenas.ImageParts | include/ds/dich.hpp:210-257 | what a written image says: offsets add up, every slice is its key's array, every key is there |
| Dicts.OwnBlock | include/ds/dich.hpp:89-140 | an array of a node's own is shared with no other node |
| Dicts.LaidFromImage | include/ds/dich.hpp:321-326 | pointers made from offsets lie in the arena and do not overlap |
| Dicts.ShowsFromImage | include/ds/dich.hpp:321-326 | and read exactly the arrays that were written |
| Dicts.Dict.Get | include/ds/dich.hpp:37-76 | the array stored under the key |
| Dicts.Dict.Exists | include/ds/dich.hpp:78-87 | true exactly for present keys |
| Dicts.Dict.Insert | include/ds/dich.hpp:89-140 | the key maps to the new array and no other key changes; an empty array is ignored; the one array freed is an old one of another size outside the arena; every block pointed at is an old one or new, and none changes for an array of the same size; the table is resized exactly if it held more than sixteen keys a bucket, and the load bound kept exactly as in `HashMap.Set` |
| Dicts.Dict.InsertInPlace | include/ds/dich.hpp:123-126 | an array of the same size written over the old one, in the arena or not, changes only its own key |
| Dicts.Dict.InsertInstead | include/ds/dich.hpp:127-137 | an array of another size replaces the old one, which is freed exactly if it is not in the arena |
| Dicts.Dict.Del | include/ds/dich.hpp:160-188 | the entry goes, its own array is freed, no other key changes, no block is added |
| Dicts.Dict.NeverFreed | include/ds/dich.hpp:89-188 | no key leads to memory that was freed |
| Dicts.Dict.Homed | include/ds/dich.hpp:89-140 | each node lies in the bucket of its hash modulo the number of buckets, in key order |
| Dicts.Dict.Rehash | include/ds/dich.hpp:190-197 | the same dictionary in another table |
| Dicts.Dict.WriteTo | include/ds/dich.hpp:210-257 | the offsets add up, every slice is its key's array, every key is there, ordered by hash modulo the number of buckets, then by key |
| Dicts.Dict.ReadFrom | include/ds/dich.hpp:259-340 | reading what was written gives the same array for every key and the same count; old arrays are freed, and all arrays lie in one new arena |
| Dicts.Dict.FreeAll | include/ds/dich.hpp:421-439 | frees every array that is a node's own, none twice, never the arena |
| Dicts.RoundTrip | include/ds/dich.hpp:210-340 | writing one dictionary and reading it into another, or into itself, gives the same array for every key, the same count and table size |
| Dicts.RestoreAndInsert | include/ds/dich.hpp:89-140 | an array stored after that changes its own key alone, although all arrays share an arena; one of the same size lands in the arena |
| HashMultimaps.SumAny | include/ds/hash_multimap.hpp:151-264 | the number of stored values does not depend on the order of counting |
| HashMultimaps.ValueFound | include/ds/hash_multimap.hpp:135-149 | in a sorted array, repetitions allowed, the search decides membership |
| HashMultimaps.Gather | include/ds/hash_multimap.hpp:232-252 | collects exactly the values not stored yet, each once, in order |
| HashMultimaps.HashMultimap.Get | include/ds/hash_multimap.hpp:65-102 | the sorted array stored under the key |
| HashMultimaps.HashMultimap.Insert | include/ds/hash_multimap.hpp:151-200 | adds the value exactly when absent; arrays stay sorted, other keys unchanged, both counters exact; the table is resized exactly if it held more than sixteen keys a bucket, and the load bound kept exactly as in `HashMap.Set` |
| HashMultimaps.HashMultimap.InsertAll | include/ds/hash_multimap.hpp:202-264 | under a new key all values with repetitions, under an old key the absent ones once; arrays sorted, counters exact; table size and load bound as for one value |
| HashMultimaps.HashMultimap.Exists | include/ds/hash_multimap.hpp:135-149 | true exactly for stored pairs |
| HashMultimaps.HashMultimap.Del | include/ds/hash_multimap.hpp:310-338 | drops the key with its array; both counters exact |
| HashMultimaps.HashMultimap.Homed | include/ds/hash_multimap.hpp:151-264 | each node lies in the bucket of its hash modulo the number of buckets, in key order |
| HashMultimaps.HashMultimap.Rehash | include/ds/hash_multimap.hpp:395-402 | the same multimap in another table |
| HashMultimaps.HashMultimap.WriteTo | include/ds/hash_multimap.hpp:419-470 | the offsets add up, every slice is its key's array, exactly the keys with values are there, ordered by hash modulo the number of buckets, then by key |
| HashMultimaps.HashMultimap.ReadFrom | include/ds/hash_multimap.hpp:472-552 | rebuilds what was written, recounting keys and values |
| HashMultimaps.NonEmptyPart | include/ds/hash_multimap.hpp:430-444 | what writing keeps: all arrays sorted, and everything exactly if no key has an empty array |
| HashMultimaps.RoundTrip | include/ds/hash_multimap.hpp:419-552 | writing one multimap and reading it into another restores every key that has values, and the whole multimap if and only if no key has an empty array; the number of values survives in any case |
| HashMultimaps.EmptyKeyIsLost | include/ds/hash_multimap.hpp:202-264 | inserting an empty batch under a new key is such a case: the key is there, and gone after writing and reading |

## Left out

- RunContainers.RunContainer.ShiftTail: a right shift of fewer than all runs requires room in the buffer, because the code tests the capacity against the shifted runs alone (`include/ds/roaring.h:2790-2794`); its only caller shifts left.
- RunContainers.RunContainer.Append: the capacity the caller must provide is a precondition, as in the code, which does not check it.
- HashMaps.HashMap.ReadFrom: reads what a map wrote, or fails on a stream that ends early; other bytes are not modelled.
- Dicts.Dict.ReadFrom: the same for dictionaries; the arena is a new block, not the old vector resized.
- HashMultimaps.HashMultimap.ReadFrom: the same for multimaps.
- HashMaps.HashMap.Set: requires, when a rehash is due, that the table size is defined (the 32-bit count is neither 0 nor the least integer); the code does not check it. A map that keeps its load bound never gets there (`DsUtil.ReliefIff`).
- HashMaps.HashMap.Merge: requires that the table sizes on the way are defined: fewer than 2^31 entries together, or a map within its load bound and at most 2^32 + 1 together.
- Dicts.Dict.Insert: arrays of 2^31 values or more, whose 32-bit unsigned size the code keeps in an `int` (`include/ds/dich.hpp:89`, `:111`, `:362`), are not modelled with a negative size.
- HashMultimaps.HashMultimap.InsertAll: the same for its arrays.
- Roaring64Maps.Roaring64Map.Intersect: when both operands are the same map, what the unseen 32-bit operations do with one bitmap as both operands is not modelled; sub-bitmaps are values here. The same holds for Subtract, Unite and SymmetricDifference.
- BitsetContainers.BitsetContainer.GetRange: a range starting at 65536, for which the code reads past the last word.
- HashLruCaches.Share: `std::ceil` of a quotient of doubles is exact integer division here; changing the bounds of a sharded cache later is not modelled.
- Words.Left, Words.Right: a shift by a variable amount is written as that many shifts by one.
- TimedLruCaches.TimedLruCache.Set: the clock is a parameter; keys are integers, since the set orders by key.
- HashMultimaps: values are ordered by a key and carry nothing else, and the arrays are values, so that writing an equal value over the old one is no change; the arena of a multimap is modelled in `Dicts` only.
- Hash tables are sequences of sequences, not arrays of vectors: update in place of the bucket vectors is not captured, except for `Dict`'s value arrays. Keys are integers and hashes arbitrary functions.
- The load test divides in single precision; here it is exact, so that rounding near 16 for tables of 2^20 buckets and more is not captured.
- Bodies that are not in the repository's headers (growing a buffer, conversions between containers, operations of the 32-bit bitmap) have simple bodies here with the contracts their names promise.
- SIMD and assembly branches, aligned allocation, shared and copy-on-write containers, serialization, iterators and printing of the roaring library.
- `Roaring64Map`: the 32-bit overloads, which use the map node of high half 0, and the variants of add and remove that report a change; equality (never compares high keys), flip across high keys, subset tests (compare an iterator of one map with the end of another), minimum and maximum, `runOptimize`.
- `HashMap::clear`, `HashMap::wforeach`, `HashMultimap::set` and `HashMultimap::del` of one value: their bodies do not do what their names say. `Dict::get` without copying, `swap`, callbacks over all entries.
- `include/ds/timed_cache.hpp`, whose two indexes do not agree after setting a present key, and `include/ds/array.hpp`.
- Per-bucket locks, status counters and the locks of the caches: each operation is one step.
- Thread pool: wall-clock time (a timeout may happen whenever a worker waits), futures and results, exceptions, failing thread creation, `start` interleaved with submissions, pools after the first one, wrap-around of the atomic counters (they are bounded by the limits of the pool).

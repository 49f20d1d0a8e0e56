# smallkv in Dafny

This project models the storage engine smallkv and proves what its data structures promise. Objects whose
methods update fields are classes with those fields; every such method is proved against a function of the
old state, and the promises are proved about that function.

| files | what they model |
|---|---|
| `Sequences`, `ByteStrings`, `Codec` | sequences, byte strings in `std::string` order, C-string truncation, fixed-width integers |
| `Levels`, `SortedPairs`, `SkipList` | the skip list: nodes with arrays of links, tied by an invariant to one ghost sequence of nodes |
| `Allocator` | the free-list allocator: slots, bump pool, block links kept in the blocks themselves |
| `LruTrace`, `Lru`, `LruRuns` | the trace function the key list of an LRU cache follows, the cache with reference counts, whole runs of clients |
| `DataBlock`, `DataBlockBuilder` | prefix-compressed records, restart groups, the bytes of a block |
| `Separator`, `SstTable`, `SSTableBuilder` | separators, where blocks are cut, the bytes of a table file, the builder that writes them |
| `SstParser`, `SstTheorems`, `TableBytes` | the footer and index steps of the parser, the round trips, where every number of a file stands and which files the parser accepts |
| `IndexSearch`, `TableSize` | the index search, the size of a file |
| `BloomFilter`, `FilterBlock` | the Bloom filter with 32-bit wrap-around probing, and its block |
| `FileWriter` | the 64 KB buffered writer |
| `MemTable`, `Database` | the memtable over the skip list, its conversion to a table, and the write path with its flushes |

The main results, each over every input or every run:

- Every chain of the skip list is exactly the sorted sequence of nodes tall enough for it, whatever heights
  are drawn, and the list is a map from keys to first values.
- The allocator's blocks, free or live, and its pool partition all memory obtained. Lines 84 and 85 of
  `src/memory/allocate.cpp` do not do what the comment above them says; the class carries both readings
  and the contract says exactly when the code as it stands breaks (`Breaks`), with sequences of requests that end
  in a null dereference and in one block handed out to two owners.
- The key list of a smaller cache is always a subsequence of that of a larger one, and the list is in order of
  last use. No node is destroyed twice, while cached, or while held, as long as every handle is given back while
  its key has stayed in the cache; at the first one given back later the counts go wrong, and a run shows a node
  destroyed while held.
- A finished table file is data, filter, index and footer at the recorded offsets; the parser's footer and
  index steps recover every entry; a reference reader recovers every pair. On bytes in general the parser accepts
  exactly the files whose footer names a range of whole entries.
- The index search is decided on bytes: for every key of a table, exact conditions under which it finds the block
  of the key, and exact conditions under which it finds all keys but those whose `add` flushed a block. They hold
  for keys of bytes 0x20 to 0xFE, and tables are given that fail.
- A run of puts and deletes, with all the flushes it causes, followed by a close leaves exactly the tables that the
  writes fill, which together hold what the last write to each key left, and no filter in the files rules out a key
  of its table. It is said exactly when such a run fails.

Where the code and its comments disagree, the code is modelled:

- `src/table/sstable_builder.h:96` promises `key1 < ret < key2`; the code keeps it exactly under `Separates` and not
  `Successor` (`StrictExact`), and the weaker `key1 < ret <= key2` exactly under `Separates` (`SeparatorExact`;
  `BumpFails` and `PrefixFails` give inputs that fail).
- `src/sst_parser/sst_parser.cpp:69` says an index key is above all keys of its block; the key that triggered
  the flush usually is not, and where a bump wraps around others are not either (`FindsBlock`, `SearchMisses`).
- `src/memory/allocate.h:45` promises to grow the memory at `p`; `Reallocate` carries nothing over, and freeing the
  old block overwrites its first word with a link (`FreeListAllocator.FreeListAllocate.Deallocate`).
- `LRU::release` takes the reference from whatever node the key has now, whoever got the handle (`StaleRelease`).
- `src/table/sstable_builder.cpp:49-56` takes the offset of a flushed block after moving past the block
  (`EntryPointsAtBlock`).
- `src/sst_parser/sst_parser.cpp:125-127` expects a trailer that `finish_data_block` does not write
  (`ReaderMisreadsTrailer`).
- `src/db/offset_info.h:13-14` calls the size an offset and the offset a size; the builders and the parser use them by
  their names, size first (`TableBytes.FooterInFile`).
- A last group that is exactly full is written with record count 0 (`RecordCountsExact`).
- Restart entries say a block without records has one group (`RestartNumCountsGroups`).
- `LRU::insert` of a cached key drops the new value (`Lru.LRU.Insert`).
- `MemTable` reads its arguments as C strings, so it keeps only what stands before the first NUL
  (`TruncationHarmless`).

Asserts are taken to be enabled; an operation whose assert would fail returns `Aborted`, `None` or an error.
The hash is any function to 32 bits; bit-array size and number of hash functions are any functions of the number of
keys, the latter from 1 to 32 as src/filter/bloom_filter.cpp:19-25 sees to.

## Model

| member | source | states |
|---|---|---|
| `ByteStrings.LessTrichotomy` | src/memtable/skiplist.h:151-165 | of two keys exactly one of equal, smaller, greater holds, so the three-way comparisons of every descent always take a branch and only one |
| `ByteStrings.LessTransitive` | src/memtable/skiplist.h:153-155 | `std::string` order is transitive |
| `ByteStrings.LessIs` | src/memtable/skiplist.h:151-165 | one key is below another exactly if at the first position where they differ it has ended or has the smaller byte, taken unsigned |
| `ByteStrings.CStrExact` | src/memtable/memtable.cpp:25 | going through `data()` keeps a string exactly when it has no NUL |
| `SortedPairs.PutMap` | src/memtable/skiplist.h:254-286 | putting a pair into the sorted sequence adds it to the map unless the key is there |
| `SortedPairs.RemoveMap` | src/memtable/skiplist.h:169-223 | removing by rank takes exactly that key out of the map |
| `SortedPairs.SortedUnique` | src/memtable/skiplist.h:106-113 | two sorted sequences with the same map are equal: what an iteration shows is determined by the map |
| `SortedPairs.RemoveUsage` | src/memtable/skiplist.h:211-213 | the bytes subtracted on deletion are those of the removed pair |
| `SortedPairs.ToMapSize` | src/memtable/skiplist.h:54 | the number of pairs is the number of keys |
| `SortedPairs.UsageIs` | src/memtable/skiplist.h:264-265 | the bytes counted are all bytes of keys and values |
| `Levels.NextAfterInsert` | src/memtable/skiplist.h:277-285 | which node follows which on a level after one is put in, from the heights alone |
| `Levels.NextAfterDrop` | src/memtable/skiplist.h:216-221 | the same after one is taken out |
| `SkipLists.SkipList.ChainsAreExact` | src/memtable/skiplist.h:94-101 | on every level the links from the head visit exactly the nodes taller than the level, in key order, and then end |
| `SkipLists.SkipList.Contains` | src/memtable/skiplist.h:226-251 | true exactly for the keys of live pairs; the descent ends |
| `SkipLists.SkipList.Get` | src/memtable/skiplist.h:139-166 | the value of the abstract map, or nothing; the descent ends |
| `SkipLists.SkipList.FindPrevNode` | src/memtable/skiplist.h:301-318 | for every level in use the last node of that level with a smaller key, null above |
| `SkipLists.SkipList.RandomLevel` | src/memtable/skiplist.h:321-327 | a height from 1 to 12, any of them |
| `SkipLists.SkipList.Insert` | src/memtable/skiplist.h:254-286 | invariant kept and the pairs become the old ones with the pair put in sorted place; a present key changes nothing; holds for every drawn height, also above the searched levels |
| `SkipLists.SkipList.FindTarget` | src/memtable/skiplist.h:177-209 | the descent of `Delete` records, for each level of the target, its immediate predecessor, and the target's height; the branch called an error point cannot be reached |
| `SkipLists.SkipList.TargetBelow` | src/memtable/skiplist.h:211-213 | `prev[0]->next[0]` is the node to delete |
| `SkipLists.SkipList.UnlinkNode` | src/memtable/skiplist.h:216-221 | every chain is the old one without the node, the assert on line 219 holds |
| `SkipLists.SkipList.Delete` | src/memtable/skiplist.h:169-223 | invariant kept, the pairs become the old ones without the key, and the node sequence is the old one without that node |
| `SkipLists.SkipListIterator.MoveToFirst` | src/memtable/skiplist.h:106-108 | the walk starts at the smallest pair |
| `SkipLists.SkipListIterator.Current` | src/memtable/skiplist.h:117-126 | the pair at the iterator's position in key order |
| `SkipLists.SkipListIterator.Next` | src/memtable/skiplist.h:111-114 | the position moves by one, so a walk shows every pair once in order |
| `SkipLists.ReplayIsMap` | src/memtable/skiplist.h:169-286 | the sorted sequence after any run of operations stays sorted and is the map of the run |
| `SkipLists.Run` | src/memtable/skiplist.h:169-286 | any run leaves exactly the pairs of that map, with its size and bytes |
| `SkipLists.RunBoth` | src/memtable/skiplist.h:321-327 | the heights drawn are unobservable: two lists driven alike agree on pairs, order, size and bytes |
| `FreeListAllocator.TilingIsPartition` | src/memory/allocate.cpp:46-97 | every byte of every chunk lies in exactly one block or in the pool |
| `FreeListAllocator.CarveTiles` | src/memory/allocate.cpp:51-62 | cutting a block off the pool keeps the partition |
| `FreeListAllocator.ChainUnique` | src/memory/allocate.cpp:41-42 | the links of a slot spell at most one list |
| `FreeListAllocator.CycleHasNoChain` | src/memory/allocate.cpp:84-85 | two blocks that link to each other spell none |
| `FreeListAllocator.FreeListAllocate.FillSlot` | src/memory/allocate.cpp:46-97 | terminates, and leaves the requested list non-empty with ten blocks or as many as the pool holds and all lists acyclic; goes wrong exactly when lines 84-85 run as written, and dereferences null exactly when that slot is empty; where a remainder has to be mounted the lists must be right before |
| `FreeListAllocator.FreeListAllocate.MountAsWritten` | src/memory/allocate.cpp:81-88 | what lines 84-85 do: null dereference on an empty slot, otherwise a two-block cycle |
| `FreeListAllocator.FreeListAllocate.MountAsCommented` | src/memory/allocate.cpp:80-88 | the push the comment describes keeps every list |
| `FreeListAllocator.FreeListAllocate.Allocate` | src/memory/allocate.cpp:25-44 | an aligned block of at least `n` and under `n + 8` bytes, disjoint from every live block: the head of its list if there was one, else the last of the blocks cut from the pool or from a new chunk; requests over 4096 bytes go to the system; the bookkeeping stays exact if and only if the request does not mount a remainder as written, and even when it is wrong a slot gives out its head |
| `FreeListAllocator.FreeListAllocate.Deallocate` | src/memory/allocate.cpp:109-125 | a live block of that class goes to the front of its list, its first word becomes the link, nothing else changes, the partition stays |
| `FreeListAllocator.FreeListAllocate.Reallocate` | src/memory/allocate.cpp:127-130 | within one class the very same block comes back; otherwise the old block is no longer live and a block of the new size, disjoint from every other live block, is |
| `FreeListAllocator.FreeListAllocate.ClientWrite` | src/memory/allocate.h:23-29 | a client writing into its block, link word included, breaks nothing |
| `FreeListAllocator.FirstRequest` | src/memory/allocate.h:64-68 | a new allocator of 4194304 bytes answers a first request for up to 4096 bytes with the tenth block of its class, and 80 bytes for every 8 asked for are gone from the pool |
| `FreeListAllocator.LargeRequest` | src/memory/allocate.cpp:46-75 | a request for 4096 bytes that the first chunk can serve takes the head of the list, or cuts ten blocks, or as many as fit in what is left |
| `FreeListAllocator.FirstChunkRunsDry` | src/memory/allocate.cpp:81-88 | on a new allocator, after one request for 8 bytes, 1023 requests for 4096 bytes are given blocks of the first 4 MB, and the next one dereferences null |
| `FreeListAllocator.FreeListAllocate.CycleHandsOutTwice` | src/memory/allocate.cpp:41-42 | from a cycle the third of three requests for its class is given the block of the first, whatever its owner wrote into it |
| `FreeListAllocator.FirstChunkCycles` | src/memory/allocate.cpp:81-88 | on a new allocator, after requests for 8 and 3344 bytes, 1015 requests for 4096 bytes are given blocks of the first 4 MB and the next one a block of the second; of three more requests for 3344 bytes the third is given the block of the first, which was not returned |
| `LruTrace.Inclusion` | src/cache/lru.h:103-155 | on any trace the keys of the cache with capacity c are a subsequence of those with capacity c' >= c, and the lengths differ by at most c' - c |
| `LruTrace.TraceNoDup` | src/cache/lru.h:117-131 | keys are distinct and never more than the capacity |
| `LruTrace.RecencyOrder` | src/cache/lru.h:128-152 | list order is strictly descending in time of last insertion or hit |
| `LruTrace.VictimIsOldest` | src/cache/lru.h:121-125 | the key evicted is the one used longest ago |
| `Lru.LRU.Insert` | src/cache/lru.h:103-131 | invariants kept, keys follow the trace function; a cached key only moves; the evicted node is destroyed at once exactly when nobody holds it |
| `Lru.LRU.Erase` | src/cache/lru.h:134-141 | the same for erasure, also when counts were wrong before: then it destroys by the count it finds |
| `Lru.LRU.Get` | src/cache/lru.h:144-155 | a hit moves the node to the front and hands out one more reference, a miss changes nothing |
| `Lru.LRU.PhantomEraseNode` | src/cache/lru.h:59-67 | the node leaves list and index and is destroyed if the cache's reference was the last, or waits with exactly its outstanding references; counts that were right stay right |
| `Lru.LRU.Unref` | src/cache/lru.h:77-87 | the destructor runs exactly when the count reaches zero |
| `Lru.LRU.Release` | src/cache/lru.h:164-168 | whoever's handle is given back, the reference is taken from the node cached under the key; all counts stay exact if and only if that is the node the handle was for, and the handle was out |
| `LruRuns.Serve` | src/cache/lru.h:103-168 | a run of insertions, hits, erasures and handles given back goes right up to the first handle given back after its key has left the cache, and not beyond: till then all counts are exact (a cached node has one reference plus its handles, an evicted one exactly its handles, nothing is destroyed twice, cached or held) and the keys are those of the trace function |
| `LruRuns.ServeGiveBack` | src/cache/lru.h:164-168 | giving back a handle keeps everything right if and only if its key has stayed in the cache since |
| `LruRuns.StaleRelease` | src/cache/lru.h:164-168 | insert, get, erase, insert, get, the first handle released, erase: the second node is destroyed while held |
| `Codec.RoundTrip32` | src/utils/codec.cpp:12-40 | decoding an encoded 32-bit value gives it modulo 2^32, and as a signed value gives it back exactly when it fits |
| `Codec.RoundTripOffsetInfo` | src/utils/codec.cpp:19-28 | a size and offset packed into 64 bits come back when both fit 32 bits |
| `Codec.RoundTrip64` | src/utils/codec.cpp:19-52 | decoding an encoded 64-bit value gives it modulo 2^64 |
| `Codec.LittleEndian32` | src/utils/codec.cpp:12-17 | the first byte is the least significant of four |
| `Codec.LittleEndian64` | src/utils/codec.cpp:19-28 | the first byte is the least significant of eight |
| `Codec.EncodeFixed32` | src/utils/codec.cpp:12-17 | writes the four bytes in place and nothing else |
| `Codec.EncodeFixed64` | src/utils/codec.cpp:19-28 | writes the eight bytes in place and nothing else |
| `DataBlock.DecodeRange` | src/table/data_block_builder.cpp:25-53 | prefix compression is invertible from any record whose predecessor is known, and from any group start |
| `DataBlock.DecodeGroup` | src/table/data_block_builder.cpp:19-22 | the bytes of group g alone decode to records 16g up to min(16g + 16, n) |
| `DataBlock.DecodeBlockOf` | src/table/data_block_builder.cpp:14-83 | a finished block decodes to exactly the pairs added |
| `DataBlock.RecordInBlock` | src/table/data_block_builder.cpp:18-52 | every record in the bytes of a block: a shared length of 0 for every sixteenth, otherwise the length at which the two keys first differ or one of them ends; the other two lengths, the rest of the key, the value, and then the next record |
| `DataBlock.RestartNumCountsGroups` | src/table/data_block_builder.cpp:59 | the formula counts the groups if and only if there is a record |
| `DataBlock.RestartEntriesTile` | src/table/data_block_builder.cpp:61-79 | the entries written give the count of each group, 16 or what is left modulo 16, and its size and offset; they start at 0, are contiguous and end at the last record byte |
| `DataBlock.RecordCountsExact` | src/table/data_block_builder.cpp:70-76 | the counts add up to the number of records if and only if it is no multiple of 16 |
| `DataBlock.ReaderMisreadsTrailer` | src/sst_parser/sst_parser.cpp:125-127 | what the reader takes from a finished block for the number and the offset of the restart entries, and that the offset is never right |
| `DataBlockBuilders.DataBlockBuilder.SharedLength` | src/table/data_block_builder.cpp:35-43 | the loop computes the longest common prefix with the key before |
| `DataBlockBuilders.DataBlockBuilder.Add` | src/table/data_block_builder.cpp:14-56 | the block is that of the pairs so far; an empty key changes nothing |
| `DataBlockBuilders.DataBlockBuilder.FinishDataBlock` | src/table/data_block_builder.cpp:58-83 | the bytes are those of the block layout |
| `DataBlockBuilders.DataBlockBuilder.Clear` | src/table/data_block_builder.cpp:85-90 | a cleared builder is an empty one |
| `Separator.FindShortestKey` | src/table/sstable_builder.cpp:68-87 | one byte more than there are positions with equal bytes: the first key up to there, then its next byte plus one modulo 256, or 0x20 where it has ended; failure exactly when an assert fails |
| `Separator.NoneShorter` | src/table/sstable_builder.h:95-100 | what sorts above the first key and not above the second is longer than their common prefix, so where no byte past it is equal again nothing shorter than the separator would do |
| `Separator.HeaderExample` | src/table/sstable_builder.h:97-98 | "abcd" and "abecd" get "abd" |
| `Separator.AboveExact` | src/table/sstable_builder.cpp:84-85 | the separator is above the first key exactly when the byte bumped is not 0xFF, and a bumped one is never above the second |
| `Separator.BelowExact` | src/table/sstable_builder.cpp:80-83 | of the keys from the second on, exactly those are below the separator that follow the first key, a prefix of the second, with a control character |
| `Separator.SeparatorExact` | src/table/sstable_builder.cpp:51-53 | key1 < s <= key2 if and only if the byte bumped is not 0xFF and the byte after a prefix is no control character |
| `Separator.StrictExact` | src/table/sstable_builder.h:95-100 | the promise key1 < s < key2 holds if and only if, besides, the second key is not the separator itself |
| `Separator.CommonPrefixSeparates` | src/table/sstable_builder.cpp:73-78 | with the common prefix in place of the count of equal positions the byte bumped would never be 0xFF, and the separator would fail only for a control character after a prefix |
| `Separator.BumpFails` | src/table/sstable_builder.cpp:84-85 | "a", 0xFF, "c" and "bbc" get the separator "a", NUL, below the first key |
| `Separator.PrefixFails` | src/table/sstable_builder.cpp:80-83 | "a" and "a", 0x01 get the separator "a ", above the second key |
| `Separator.BumpLastExact` | src/table/sstable_builder.cpp:100-101 | the bumped last key is above it exactly when its last byte is not 0xFF |
| `Separator.NotStrictlyBetween` | src/table/sstable_builder.h:95-100 | "a" and "b" fail the strict promise though they separate |
| `SstTable.CutsExact` | src/table/sstable_builder.cpp:36-63 | the cuts are the only ones that leave every flushed block over 4096 record bytes with its last record and not before, and what is left at 4096 or less |
| `SSTableBuilders.IndexBlockBuilder.Add` | src/table/index_block_builder.cpp:11-19 | appends one index entry |
| `SSTableBuilders.FooterBuilder.Add` | src/table/footer_builder.cpp:10-17 | appends the two offsets |
| `SSTableBuilders.SSTableBuilder.Add` | src/table/sstable_builder.cpp:28-66 | one step of the writer; fails exactly when the block overflows and there is no smaller key before |
| `SSTableBuilders.ReachedIsLaidOut` | src/table/sstable_builder.cpp:28-66 | after any run of `add` the file holds the blocks cut so far, the index their entries, the open block the rest |
| `SSTableBuilders.CloseIsLaidOut` | src/table/sstable_builder.cpp:91-109 | flushing the last block completes data region and index of the layout |
| `SSTableBuilders.SSTableBuilder.FinishFilter` | src/table/sstable_builder.cpp:110-116 | the filter bytes are those of all keys added although the filter is finished twice |
| `SSTableBuilders.SSTableBuilder.FinishSst` | src/table/sstable_builder.cpp:89-152 | the file is the image of the pairs added; fails exactly when there were none; the fields are cleared |
| `SSTableBuilders.EveryKeyPasses` | src/table/filter_block_builder.cpp:25-31 | a filter rebuilt from the filter bytes of a table reports every key added, whatever the hash |
| `SstTheorems.ParseImage` | src/sst_parser/sst_parser.cpp:34-76 | on a finished file the footer and index steps give exactly the filter range, the index range and all entries, ending at START + SIZE |
| `SstTheorems.EntryPointsAtBlock` | src/table/sstable_builder.cpp:49-56 | an entry gives the size of its block and the block's end, except the one of the last flush, which gives its start |
| `IndexSearch.IndexKeyBytes` | src/table/sstable_builder.cpp:53-57 | the key of every index entry in a finished table, on bytes: the separator of the last two keys of a flushed block, the last key with its last byte plus one modulo 256 for the block that was left |
| `SstTheorems.ScanRecoversAll` | src/table/sstable_builder.cpp:28-133 | reading the blocks one after the other by the recovered sizes gives back exactly the pairs added, in order |
| `SstTheorems.ImageInjective` | src/table/sstable_builder.cpp:28-133 | different runs give different files |
| `TableBytes.FooterInFile` | src/table/footer_builder.cpp:10-17 | data, filter and index fill a file up to its last sixteen bytes, which hold size and offset of the filter and then size and offset of the index |
| `TableBytes.EntryInFile` | src/table/index_block_builder.cpp:11-19 | the entries stand in the index one after the other, each the length of its key, the key, size and offset |
| `SstParser.SSTParser.ParseIndexBlocks` | src/sst_parser/sst_parser.cpp:60-76 | the loop pushes exactly the entries in the range, or meets a read out of bounds or the failing assert |
| `SstParser.SSTParser.Parse` | src/sst_parser/sst_parser.cpp:34-76 | header and entries as the specification reads them |
| `SstParser.SSTParser.FindKeyDBIndex` | src/sst_parser/sst_parser.cpp:112-121 | the first entry whose key is greater, -1 if there is none |
| `SstParser.BlockForIs` | src/sst_parser/sst_parser.cpp:112-121 | that index is the only one with this property |
| `SstParser.RestartFindsFullKey` | src/sst_parser/sst_parser.cpp:195-206 | at the offset of a written restart entry the full first key of the group is found, except when the entry's count is 0 |
| `SstParser.ParseIndexWritten` | src/sst_parser/sst_parser.cpp:60-76 | an encoded index followed by anything parses back to its entries |
| `TableBytes.ParseExact` | src/sst_parser/sst_parser.cpp:34-76 | whatever the bytes: the parser gives header and entries if and only if the last sixteen bytes name the ranges and the index range is a sequence of whole entries that ends where it should |
| `IndexSearch.PlainKeysSuffice` | src/sst_parser/sst_parser.cpp:112-121 | with keys of bytes 0x20 to 0xFE and a first record that fits, the index keys ascend, the search finds the block of every key that flushed no block, and for one that did the next block or none |
| `IndexSearch.SeparatorsAscend` | src/table/sstable_builder.cpp:53-57 | the index keys ascend strictly if and only if at each pair of neighbouring boundaries a condition on the bytes of their keys holds |
| `IndexSearch.IndexDescends` | src/table/sstable_builder.cpp:53-57 | a table with control characters in its keys whose index keys descend |
| `IndexSearch.FindsBlock` | src/sst_parser/sst_parser.cpp:112-121 | for every record of a table with ascending keys: the search gives its block if and only if its key is not cut off by a bump that wraps around, does not follow an earlier prefix with a control character and, if it flushed its block, follows the prefix of its own separator so |
| `IndexSearch.FindsAllBlocks` | src/sst_parser/sst_parser.cpp:112-121 | the search gives the block of every key that flushed none if and only if no bump wraps around where a block holds such a key, none of them follows an earlier prefix with a control character, and the last key can be bumped |
| `IndexSearch.SearchMisses` | src/sst_parser/sst_parser.cpp:112-121 | the key "a", 0xFF, "c" before "bbc" flushed nothing and is not found |
| `IndexSearch.SearchSurvives` | src/sst_parser/sst_parser.cpp:112-121 | in a table whose one separator does not separate, both keys are found |
| `BloomFilters.AddKeysSets` | src/filter/bloom_filter.cpp:28-41 | the bits set are exactly the old ones and the probes of the keys |
| `BloomFilters.AddKeysTwice` | src/filter/bloom_filter.cpp:28-41 | adding the same keys again changes nothing |
| `BloomFilters.ProbeIs` | src/filter/bloom_filter.cpp:31-38 | round j looks at bit ((h + j d) mod 2^32) mod the number of bits, d being h with its high 17 and its low 15 bits in each other's place |
| `BloomFilters.NoFalseNegatives` | src/filter/bloom_filter.cpp:43-58 | every non-empty key added is reported, and from empty bits a key is reported exactly when all its probes are probes of added keys |
| `BloomFilters.BloomFilter.CreateFilter` | src/filter/bloom_filter.cpp:28-41 | a bit is set afterwards exactly if it was before or some round of some key ends at it, by the closed form of `ProbeIs` |
| `BloomFilters.BloomFilter.Exists` | src/filter/bloom_filter.cpp:43-58 | true exactly when the key is not empty and the bit of every round, by that closed form, is set |
| `BloomFilters.BloomFilter.CreateFilter2` | src/filter/bloom_filter.cpp:72-75 | takes over bits and number of hash functions |
| `FilterBlocks.FilterBlockBuilder.Add` | src/table/filter_block_builder.cpp:12-18 | collects the key unless it is empty |
| `FilterBlocks.FilterBlockBuilder.FinishFilterBlock` | src/table/filter_block_builder.cpp:25-31 | the bits of the collected keys, then the number of hash functions |
| `FilterBlocks.FinishTwiceAndRebuild` | src/table/filter_block_builder.cpp:25-39 | finishing twice gives the bytes of finishing once, and the rebuilt filter reports every key |
| `FileWriters.FileWriter.Append` | src/file/file_writer.cpp:37-77 | file and buffer together grow by exactly the data, whatever its length, and the buffer holds exactly the bytes the source leaves in it: a buffer is written at once the first time it fills, later only when more bytes come |
| `FileWriters.FileWriter.Flush` | src/file/file_writer.cpp:79-85 | afterwards the file alone holds everything appended |
| `FileWriters.AppendAll` | src/file/file_writer.cpp:37-85 | any mix of appends and flushes is one append of everything |
| `MemTables.MemTable.Insert` | src/memtable/memtable.cpp:20-41 | add keeps a present value, update replaces it, deletion leaves the empty value, all on the strings up to their first NUL |
| `MemTables.MemTable.Get` | src/memtable/memtable.cpp:47-49 | the value of the map for the truncated key |
| `MemTables.MemTable.Contains` | src/memtable/memtable.cpp:43-45 | whether the map has the truncated key |
| `MemTables.MemTable.GetSize` | src/memtable/memtable.cpp:74-76 | the number of keys |
| `MemTables.MemTable.GetMemUsage` | src/memtable/memtable.cpp:70-72 | the bytes of all keys and values |
| `MemTables.KeptIs` | src/table/sstable_builder.cpp:29-31 | the builder drops the entry of the empty key and no other, and order stays |
| `MemTables.AcceptsAscending` | src/table/sstable_builder.cpp:39-53 | with ascending keys `add` fails only for a first record over 4096 bytes |
| `MemTables.FinishableExact` | src/table/sstable_builder.cpp:70-72 | ascending pairs make a table if and only if the first record is at most 4096 bytes |
| `MemTables.FedIs` | src/memtable/memtable.cpp:54-59 | what the builder holds after i rounds is the first i pairs, in order, without the empty key |
| `MemTables.MemTable.ConvertToL1SST` | src/memtable/memtable.cpp:51-64 | the file is the table of all pairs in ascending order, with the filter of exactly their keys by the builder's hash, size and number; fails exactly when no key is left or the first record overflows a block |
| `MemTables.TableFileReads` | src/memtable/memtable.cpp:51-64 | and it reads back as those pairs |
| `MemTables.NoKeyRuledOut` | src/filter/bloom_filter.cpp:43-58 | the filter rebuilt from the range that the parser finds in a table file, with the count in its last four bytes, reports every key of the table |
| `Database.TruncationHarmless` | src/db/db_impl.cpp:50-55 | a write has the effect of one on whole strings, in every state, if and only if its strings have no NUL |
| `Database.LastWriteCounts` | src/db/db_impl.cpp:50-55 | after any run a key holds what the last write to it left, the empty value after a deletion |
| `Database.Untouched` | src/db/db_impl.cpp:50-55 | a key never written keeps what it had |
| `Database.SmallNeverJams` | src/db/db_impl.cpp:63-70 | writes whose records fit a block and have a key never fail |
| `Database.WithinAll` | src/db/db_impl.cpp:63-70 | the memtable stays within its limit, and every table within that and one write more |
| `TableSize.FileBound` | src/table/sstable_builder.cpp:28-133 | the bytes of a finished file, from the number and the bytes of the pairs put in |
| `Database.FlushKeeps` | src/db/db_impl.cpp:191-203 | moving the memtable's pairs to a file changes nothing but the empty key |
| `Database.FilesRead` | src/db/db_impl.cpp:191-203 | the files written read back as their tables |
| `Database.Db.MemTableToSST` | src/db/db_impl.cpp:191-203 | one more file, the table of the memtable's pairs with the filter made by the store's hash for that number of keys; the files before stay; fails exactly when the pairs make no table |
| `Database.Db.FlushIfFull` | src/db/db_impl.cpp:63-70 | a memtable at its limit is written to exactly one more file and replaced, one below it is left; what is stored stays the same |
| `Database.Db.Put` | src/db/db_impl.cpp:31-72 | what is stored, in files and memtable together, is the old map with the pair; one file is added exactly when the bytes then in the memtable reach the limit, and afterwards they are below it or there are none; fails exactly when the store is closed or those pairs make no table |
| `Database.Db.Delete` | src/db/db_impl.cpp:74-110 | the same with the empty value for the key |
| `Database.Db.Close` | src/db/db_impl.cpp:205-214 | afterwards the files alone hold everything, those before among them; closing again changes nothing; fails exactly when the pairs left make no table |
| `Database.Run` | src/db/db_impl.cpp:31-110 | any run of writes, with its flushes, stores what its last writes say and leaves exactly the tables the writes fill, with a filter in each file below 2^31 bytes that rules out none of its keys; fails exactly when the store is closed or a write brings the memtable to its limit with pairs that make no table |
| `Database.RunAndClose` | src/db/db_impl.cpp:31-214 | after a run and a close the files are those of exactly the tables the writes fill and, read oldest first, hold what the last write to each non-empty key left; no filter in a file below 2^31 bytes rules out a key of its table; fails exactly when a write jams or the pairs left make no table; all are that short and can be read back if 43 times memtable limit and largest write, and the filter, stay below 2^31 bytes |

## Left out

- Point lookup in a block, `FindKeyInDB` (src/sst_parser/sst_parser.cpp:123-193), and so a get from a file: the
  reader does not follow the writer's format, as `ReaderMisreadsTrailer` shows. A reference reader,
  `ScanImage`, takes its place in the round trips.
- Step 3 of `Parse` (src/sst_parser/sst_parser.cpp:78-86), which forms a pointer without its base; what it is meant
  to rebuild is covered by `EveryKeyPasses`.
- `ReadAll` drops newlines; parsing starts from the bytes of the file.
- `Database.Db.Put`, `Database.Db.Delete`: the log and cache steps of a write; the cache is modelled on its own.
- WAL, CRC, fsync, file descriptors, directories and logging. A `write` writes everything, as the source asserts.
- `FileWriters.FileWriter.constructor`: an SST file starts empty, one writer per file, as
  src/table/sstable_builder.cpp:140-142 says.
- Blocks, filters, indexes and files of 2 GB and more: lengths are cast to `int32_t` in the source. The layout is
  modelled unbounded, fields are encoded modulo 2^32, and the theorems that read a file back need it below 2^31 bytes,
  which `Database.RunAndClose` derives from the memtable limit and the writes.
- `SkipLists.SkipList.Insert`: nodes come from `new`, not from the allocator, as in the source.
- `SkipLists.SkipList.GetSize`: the cast of a 64-bit size to `int` is not modelled.
- `FreeListAllocator.FreeListAllocate.FillMemPool`: malloc of a chunk succeeds and gives fresh memory; when it fails,
  the source recurses without end. Requests over 4096 bytes go to malloc and are not followed further.
- `FreeListAllocator.FreeListAllocate.FillFromPool`: the null stored into the first block is overwritten at once and
  is not modelled.
- `Lru.LRU.Insert`: nodes are never freed in the model; the node made for a key already cached is dropped.
- `Lru.LRU.Release`: for a key without a node the source dereferences an end iterator; the model says so and leaves the
  state as it is. The garbage map may lose a held node when a second node of the same key is evicted.
- `Lru.LRU.Get`: a list iterator is modelled by the node it stands for, so iterator invalidation is not modelled.
- The sharded `Cache`, which only picks an `LRU` by hash.
- Floating-point sizing of the Bloom filter and `murmur_hash2`: parameters.
- `SstParser.SSTParser.Parse`: the sum START + SIZE does not wrap; a read outside the file is an error.
- `SSTableBuilders.SSTableBuilder.FinishSst`: closing the descriptor is not modelled; `key_count` is not cleared, as in the
  source.
- `Database.Run`: nothing is said of the state after an abort; recovery from the log is not part of the source.
- Locks, `BatchPut`, `BatchDelete`, `DefaultAlloc`, and the command line.

# Proofs about the SSD key-value indexes

This project models the stateful indexes and stores of the repository in Dafny and proves what keeps
them correct over whole runs. Code that updates objects in place is modelled by classes, arrays and
loops with the source's own names; each such method is proved against functions and predicates on plain
values, and the general statements are proved about those.

- **Extendible hash** (`Bits`, `Aliasing`, `Partition`, `ExBucket`, `Directory`). Slots of a doubling
  directory share bucket objects. The invariant says that two slots hold the same bucket exactly when
  they agree on that bucket's low `depth` bits, and that slot `i` stores exactly the keys that agree with
  `i` on those bits. Buckets go to a page of the store when they fill up. The recursion
  `insert` → `split` → `insert` is proved to end, on heap objects, for bucket sizes of at least 2 and keys below `2^D`.
- **Page store** (`PageStore`). An erase-only device with a write pointer for each chunk, and the host
  code that hands out fresh pages and rewrites old ones by reading, padding, erasing and rewriting the chunk.
- **Skip list** (`Heights`, `SkipList`). Linked nodes with forward arrays. The abstract state is the
  bottom chain; every forward pointer must name the next node that is tall enough.
- **LSM tree** (`Merge`, `Buffer`, `Level`, `Flush`, `Tree`). Buffer flushes cascade through levels of two
  runs each. `Flush` describes the cascade on sequences and proves that the levels count the flushes in
  bijective base 2 and are ordered by age; `Tree` proves the class on runs, levels and buffer against it.
- **Thread pool** (`ThreadPool`). A transition system of workers, callers of `enqueue` and the destructor
  around one mutex, one condition variable and the stop flag; spurious wakeups are included.
- **Linear hash** (`LinearHash`, `LinearInsert`, `LinearTable`). Buckets split in any order under per-bucket flags, levels that
  advance, the lazily doubled table, and the merge that `Delete` performs; exactly when `Insert` and `Delete` work.
- **LRU cache** (`Lru`) and **page striping** (`Striping`).

`Entries` holds key-value vectors and `Arithmetic` quotients and remainders.

Some properties one would expect do not hold of the code. The code is modelled as it is, and lemmas say
exactly when the property holds:

- `Insert` of the linear hash works exactly if the addressed bucket is not full, or is split for the first time and has an
  entry for the other half than the new key (`LinearInsert.InsertGoodExactlyWhen`, `LinearInsert.InsertAddsOneExactlyWhen`).
  Otherwise the bucket's older entries are found no more (`LinearInsert.InsertHides`), only the new one is
  (`LinearInsert.InsertStandsAlone`): two buckets of two entries and the keys 4, 8, 12 are enough
  (`LinearTable.FirstSplitHides`). After a split that ends the level the index is taken by the new `h2`, and for a key in the upper half it lies past the end of the table (`LinearInsert.InsertAfterLevelEnd`; keys 2, 3, 7 in
  `LinearTable.LevelEndLeavesTable`).
- After every first split each entry is where `Search` looks (`LinearHash.SplitPlaces`), but `Search` stays inside the table exactly if the
  table was doubled before or some entry moves up (`LinearHash.SplitStaysInRange`, fails in `LinearTable.SearchLeavesTable`).
- The merge in `Delete` loses entries exactly if the upper half is on its page (`LinearHash.MergeConservesExactlyWhen`), and
  leaves a deleted key to be found exactly if it leaves an empty bucket over an old page with keys that now belong there
  (`LinearHash.MergeGoodExactlyWhen`, `LinearHash.MergeRevives`). Inserting 6, 10, 4 and deleting 4 does both
  (`LinearTable.DeleteLosesAndRevives`); for a whole deletion the conditions are `LinearTable.DeletedGoodExactlyWhen` and
  `LinearTable.DeletedTakesOneExactlyWhen`.
- A search of the extendible hash judges an absent key rightly exactly if its bucket has entries in memory and the key is not 0;
  for a bucket on its page it answers with the key itself, which the program takes for found
  (`ExtendibleDirectory.Directory.search`). An old page can answer only for a key that was removed
  (`ExtendibleDirectory.Directory.StaleKeysWereRemoved`), and does so after keys 0, 1 and 3 are inserted into buckets of two
  entries and key 0 is removed (`ExtendibleDirectory.RemovedKeyIsFound`).
- A flush stays within the tree exactly while fewer than `2 * (2^L - 1)` flushes went before (`Flush.RoomAfterFlushes`). A merge
  of one or two runs' worth of entries leaves whole runs exactly if the tombstones among them make up whole runs
  (`Flush.WholeRunsExactlyWhen`, `Tree.WholeRunsAfterDrain`); a buffer with one tombstone merged into a run breaks them
  (`Tree.TombstoneLeavesPartRun`).
- A run of pages is read where it was written exactly if it ends before the first wrap, or its first lap is whole batches of threads
  and either every lap is or it ends before the second wrap (`Striping.AgreeExactlyWhen`). That the threads divide the LUNs is
  not enough when the run starts on another LUN than the first (`Striping.MisreadFromSecondLun`).
- `main` starts channel `c` at `c * npugrp * npunit * nsectr`, while the stripes count `nchunk * nsectr` sectors for each LUN. What a
  run of a channel other than the first reads or writes stays on the channel's own LUNs exactly if `npugrp >= nchunk` and the run ends
  before the first wrap; channel 0 reads on its own LUNs always and writes there exactly if the threads divide them or the run ends
  before the first wrap (`Striping.ChannelKeepsToItself`). The first page after the lap is written onto a page of channel 0, or, when
  a batch crosses the end, past the channel's last LUN (`Striping.ChannelsCollide`, `Striping.SecondPagesCollide`).
- After the sector pointer has started over, a fresh page is handed out once exactly if it lies on the 150 chunks that were erased.
  The first page behind them, 614400, is occupied: the device refuses it, the pointer stays, and every further bucket is handed
  that page (`PageStore.OnceExactlyWhen`, `PageStore.SecondPassRun`). A bucket whose page was erased is not written back at all when it is
  rewritten, until its page number has been handed out again (`PageStore.Store.PageUpdate`).

Numbers are unbounded. Directory indices stay below `2^30` by the bound on `D`. The random level of a
skip-list node, the value offset returned by the tier's store and the order in which threads run are
parameters. `std::sort` is a stable sort by key.

## Model

| member | source | states |
|---|---|---|
| Bits.LowIsRemainder | src/MultiHash/ExtendibleHash/ExHash.cpp:23-26 | masking with `(1 << d) - 1`, taken digit by digit, is the remainder modulo `2^d` |
| Bits.FlipChangesOneBit | src/MultiHash/ExtendibleHash/ExHash.cpp:29-32 | flipping bit `d` leaves the low `d` bits and changes the low `d + 1` bits |
| Bits.HalvesOfAClass | src/MultiHash/ExtendibleHash/ExHash.cpp:67-109 | the numbers that agree with `b` on `d` bits are those that agree with `b` or with its pair on `d + 1` bits |
| Bits.NothingWithinStride | src/MultiHash/ExtendibleHash/ExHash.cpp:94-105 | between two neighbours of the stride `1 << d` no number has the same low `d` bits, so the alias loops miss no slot |
| Aliasing.SlotOfKey | src/MultiHash/ExtendibleHash/ExHash.cpp:23-26 | the slot a key is hashed to holds the bucket of slot `i` exactly when the key agrees with `i` on that bucket's local depth |
| Aliasing.GrowKeeps | src/MultiHash/ExtendibleHash/ExHash.cpp:34-42 | pushing every pointer once more keeps "same bucket exactly when equal on the local bits" at one more bit of global depth |
| Aliasing.ShrinkKeeps | src/MultiHash/ExtendibleHash/ExHash.cpp:50-65 | with no bucket at the global depth the upper half repeats the lower one, so popping it undoes a growth |
| Aliasing.SplitKeeps | src/MultiHash/ExtendibleHash/ExHash.cpp:67-105 | redirecting the pair class to a new bucket and deepening both halves keeps the aliasing invariant |
| Aliasing.MergeKeeps | src/MultiHash/ExtendibleHash/ExHash.cpp:111-130 | redirecting a class to its equally deep pair keeps the aliasing invariant and leaves no slot with the old bucket |
| Aliasing.MergeUndoesSplit | src/MultiHash/ExtendibleHash/ExHash.cpp:67-130 | merging the sibling that a split made gives back slots and depths of before the split |
| Aliasing.SlotsPerBucket | src/MultiHash/ExtendibleHash/ExHash.cpp:34-109 | a bucket of local depth `d` is pointed to by exactly `2^(global depth - d)` slots |
| Aliasing.RefsSumToSlots | src/MultiHash/ExtendibleHash/ExHash.cpp:34-130 | the reference counts over the distinct buckets add up to the size of the directory |
| Partition.LookupIsExact | src/MultiHash/ExtendibleHash/ExHash.cpp:186-197 | the slot a key is hashed to decides whether the key is stored and with what value |
| Partition.SplitKeepsPartition | src/MultiHash/ExtendibleHash/ExHash.cpp:84-105 | after a split has emptied its class every slot stores exactly its share of the other keys |
| Partition.MergeKeepsPartition | src/MultiHash/ExtendibleHash/ExHash.cpp:120-129 | merging an empty bucket into its pair leaves the stored map as it was |
| ExtendibleBucket.ExBucket.PageWrite | src/MultiHash/ExtendibleHash/ExBucket.cpp:14-20 | the entries end up in key order, as a map unchanged, on the bucket's own page, or on a page never handed out before if it had none, and no other page changes |
| ExtendibleBucket.ExBucket.Insert | src/MultiHash/ExtendibleHash/ExBucket.cpp:22-44 | the bucket stores the old map with the key set to the value; it moves to a page exactly when it becomes full |
| ExtendibleBucket.ExBucket.Search | src/MultiHash/ExtendibleHash/ExBucket.cpp:104-136 | what each combination of resident entries, page and key answers; None where the program's own assertion stops it |
| ExtendibleBucket.ExBucket.Remove | src/MultiHash/ExtendibleHash/ExBucket.cpp:46-58 | on a resident bucket the key and only the key leaves the stored map; code 0 exactly when it was there |
| ExtendibleBucket.ExBucket.GetData | src/MultiHash/ExtendibleHash/ExBucket.cpp:159-171 | a full bucket answers with its page, one with resident entries with those, an empty one with its old page or nothing |
| ExtendibleBucket.ExBucket.Allclear | src/MultiHash/ExtendibleHash/ExBucket.cpp:185-189 | nothing is stored any more; depth and page number stay |
| ExtendibleBucket.ExBucket.Unaffected | src/MultiHash/ExtendibleHash/ExBucket.cpp:14-44 | a write to another bucket's page changes neither what this bucket stores nor its page |
| ExtendibleDirectory.Directory.constructor | src/MultiHash/ExtendibleHash/ExHash.cpp:11-20 | a new directory of `2^depth` distinct empty buckets satisfies the invariant and stores nothing |
| ExtendibleDirectory.Directory.grow | src/MultiHash/ExtendibleHash/ExHash.cpp:34-42 | the slots are repeated once, the global depth rises by one |
| ExtendibleDirectory.Directory.RewriteAliases | src/MultiHash/ExtendibleHash/ExHash.cpp:94-105 | the two loops change exactly the slots that agree with the given one on the local depth, to its bucket |
| ExtendibleDirectory.Directory.Deepen | src/MultiHash/ExtendibleHash/ExHash.cpp:76-78 | the invariant holds, but for that one bucket's depth, also while its local depth is ahead of the global depth |
| ExtendibleDirectory.Directory.MakeSibling | src/MultiHash/ExtendibleHash/ExHash.cpp:81-105 | a fresh bucket takes over the pair class, both halves are empty, the entries handed back are exactly the class taken out of the stored map |
| ExtendibleDirectory.Directory.FullIsShallow | src/MultiHash/ExtendibleHash/ExHash.cpp:152-167 | a full bucket of at least two keys below `2^D` has local depth below `D`, so there is a bit left to split on |
| ExtendibleDirectory.Directory.DeeperTarget | src/MultiHash/ExtendibleHash/ExHash.cpp:67-109 | after a split every key of the class is hashed to a bucket one deeper |
| ExtendibleDirectory.Directory.HalvesHaveRoom | src/MultiHash/ExtendibleHash/ExHash.cpp:107-108 | while fewer than `bucket_size` entries are back neither half is full, so no re-insertion splits again |
| ExtendibleDirectory.Directory.Reinsert | src/MultiHash/ExtendibleHash/ExHash.cpp:107-108 | putting the entries back restores the stored map without changing directory, depths or the other buckets' slots |
| ExtendibleDirectory.Directory.split | src/MultiHash/ExtendibleHash/ExHash.cpp:67-109 | keeps the invariant and the stored map; slots, depths and global depth are those before, doubled if the bucket had all the directory's bits, with a new bucket for the other half of its class, and every key of the bucket is one deeper, which is what the recursion decreases; a bucket that is not full again keeps its old page |
| ExtendibleDirectory.Directory.insert | src/MultiHash/ExtendibleHash/ExHash.cpp:152-167 | terminates, keeps the invariant, and stores the old map with the key set to the value; the key's bucket ends at the first depth at which the keys stored before leave room in it, the global depth rises to that depth if it was less, and at most one fresh page per level of depth is taken |
| ExtendibleDirectory.Directory.search | src/MultiHash/ExtendibleHash/ExHash.cpp:186-197 | a stored key is found with its value; an absent one is judged "not found" exactly if its bucket has entries in memory and the key is not 0; no answer exactly where the program's assertion stops it |
| ExtendibleDirectory.Directory.StaleKeysWereRemoved | src/MultiHash/ExtendibleHash/ExBucket.cpp:104-171 | what an emptied bucket's old page can answer with is a key once inserted and no longer stored |
| ExtendibleDirectory.Directory.merge | src/MultiHash/ExtendibleHash/ExHash.cpp:111-130 | merging an empty bucket keeps invariant, map and pages and points exactly its slots to the sibling, whose class is one bit less deep; nothing changes if the pair's depth differs |
| ExtendibleDirectory.Directory.remove | src/MultiHash/ExtendibleHash/ExHash.cpp:169-178 | on a resident bucket takes exactly the key out of the stored map and keeps the invariant; the bucket is merged away, and the key's depth one less, exactly if it held no other key at a depth above 1 and its sibling is level, and slots and depths are unchanged otherwise |
| ExtendibleDirectory.Directory.shrink | src/MultiHash/ExtendibleHash/ExHash.cpp:50-65 | changes nothing if some bucket uses the global depth; otherwise the old slots were the new ones twice, and map and invariant stay |
| ExtendibleDirectory.Directory.SlotsAreConserved | src/MultiHash/ExtendibleHash/ExHash.cpp:34-130 | in every state each bucket has `2^(global - local)` slots and these counts sum to `2^global` |
| ExtendibleDirectory.Directory.FrugalHasRoom | src/MultiHash/ExtendibleHash/ExHash.cpp:152-167 | when only live buckets hold pages, the slots of the directory bound the pages taken, however many insertions went before |
| ExtendibleDirectory.InsertAll | src/MultiHash/ExtendibleHash/ExHash.cpp:152-167 | a run of insertions into a fresh directory, up to the first without room before the pointer starts over: every key has the last value inserted for it and no key is stale; it is cut short only when the slots alone nearly use up a pass |
| ExtendibleDirectory.InsertAllThenSearch | src/MultiHash/ExtendibleHash/ExHash.cpp:152-197 | after such a run every inserted key is found with its last value, and a key not inserted is judged rightly exactly if its bucket has entries in memory and the key is not 0 |
| ExtendibleDirectory.NeverStale | src/MultiHash/ExtendibleHash/ExBucket.cpp:104-136 | when no key ever inserted was removed, no search can be answered from an old page |
| ExtendibleDirectory.RemovedKeyIsFound | src/MultiHash/ExtendibleHash/ExHash.cpp:152-197 | from an empty directory of one bucket of two entries: with 0, 1, 3 inserted and 0 removed, 1 and 3 are stored and a search finds 0 with its old value |
| Entries.SortKeepsMap | src/MultiHash/ExtendibleHash/ExBucket.cpp:16 | sorting before the page write keeps distinct keys and the stored map |
| Entries.SortedByKey | src/MultiHash/ExtendibleHash/ExBucket.cpp:16 | the page is in ascending key order |
| PageStore.FillsOneMore | src/Backend/IODisk/WriteDisk.cpp:34-40 | before the wrap the usage of every chunk is what lies below the sector pointer, and a fresh page adds to exactly one chunk |
| PageStore.Store.CompensateFun | src/Backend/IODisk/WriteDisk.cpp:60-91 | padding writes at the write pointer only, brings the chunk to its end and leaves all other chunks alone |
| PageStore.Store.EraseChunk | src/Backend/IODisk/WriteDisk.cpp:98-120 | the chunk is full when it is erased, and afterwards exactly its pages are gone |
| PageStore.Store.PointerRenew | src/Backend/IODisk/WriteDisk.cpp:34-53 | host bookkeeping follows the device in both passes; at 923648 sectors the first 150 chunks are emptied and the rest kept |
| PageStore.Store.NvmWrite | src/Backend/SSDWrite/writer.cpp:380 | the device takes a page exactly at the chunk's write pointer, and otherwise refuses it and stays as it is |
| PageStore.Store.BucketWrite | src/Backend/SSDWrite/writer.cpp:274-303 | an accepted page starts with the entries, the rest is what the shared buffer held before |
| PageStore.Store.FreshPage | src/Backend/SSDWrite/writer.cpp:354-385 | the page at the sector pointer is handed out; it was free and is written before the pointer starts over and on the erased chunks after, and is occupied and not written behind them; the last page before the wrap is written and stays, with the other pages of the chunks not erased |
| PageStore.Store.PageUpdate | src/Backend/SSDWrite/writer.cpp:307-345 | read, pad, erase, rewrite: exactly the target page changes and starts with the new entries, all others of the device are as before; a page behind the chunk's pages is not written and nothing changes |
| PageStore.Store.SingleBucketWrite | src/Backend/SSDWrite/writer.cpp:348-400 | in both passes and at the wrap: a bucket with a page has exactly that page rewritten if it is still there, and nothing written otherwise; one without is handed the page at the sector pointer with its entries on it, also when the device refuses it |
| PageStore.SecondPassStarts | src/Backend/IODisk/WriteDisk.cpp:40-48 | the wrap leaves the erased chunks empty and the others as full as they were, which is where the second pass starts |
| PageStore.SecondPassIsBlocked | src/Backend/IODisk/WriteDisk.cpp:40-48 | in the second pass the next fresh page is at its chunk's write pointer exactly on the erased chunks |
| PageStore.SecondPassOneMore | src/Backend/IODisk/WriteDisk.cpp:34-40 | one fresh page on an erased chunk leads to the next state of the second pass |
| PageStore.SecondPassRun | src/Backend/SSDWrite/writer.cpp:354-385 | any run of fresh pages from the start of the second pass hands out 0, 4, 8, … up to 614400 and then 614400 again and again |
| PageStore.OnceExactlyWhen | src/Backend/SSDWrite/writer.cpp:354-385 | a page of the second pass is handed out once exactly if it lies on an erased chunk |
| Heights.NextAfterSplice | src/Ti-OCSSD/MemoryTier/MemTier.cpp:158-162 | inserting a node of height `v` changes the successor on a level exactly for the new node's predecessor on the levels below `v` |
| Heights.NextOfNew | src/Ti-OCSSD/MemoryTier/MemTier.cpp:158-162 | the new node's successor on a level is what its predecessor pointed to |
| Heights.SpliceKeepsSorted | src/Ti-OCSSD/MemoryTier/MemTier.cpp:119-126 | a key put before the first one not below it keeps the chain sorted, with equal keys allowed |
| SkipList.Node.constructor | src/Ti-OCSSD/MemoryTier/Node.cpp:16-28 | a node with its key, offset, flag 1 and `maxLevel` empty forward pointers |
| SkipList.List.constructor | src/Ti-OCSSD/MemoryTier/Node.cpp:30-38 | a list of the head sentinel alone satisfies the invariant at level 0 |
| SkipList.List.SearchNode | src/Ti-OCSSD/MemoryTier/MemTier.cpp:233-247 | the top-down descent returns the node that a linear scan of the bottom chain finds first with key at least the one sought |
| SkipList.List.InsertNode | src/Ti-OCSSD/MemoryTier/MemTier.cpp:110-163 | for any drawn height the bottom chain is the old one with the new node spliced in before the first key not below, every level linked accordingly; key 0 changes nothing |
| SkipList.HookIn | src/Ti-OCSSD/MemoryTier/MemTier.cpp:158-162 | relinking the predecessors level by level leaves all forward pointers as the new chain's heights say |
| SkipList.PredecessorKey | src/Ti-OCSSD/MemoryTier/MemTier.cpp:128-142 | the node reached by the descent has the sought key only if that key is 0, so a repeated key is never overwritten |
| SkipList.WalkVisitsTheTall | src/Ti-OCSSD/MemoryTier/MemTier.cpp:110-163 | following level `l` visits exactly the nodes taller than `l`, in the order of the bottom chain |
| SkipList.LevelsOfList | src/Ti-OCSSD/MemoryTier/MemTier.cpp:110-163 | every level is the subsequence of tall nodes of the bottom chain, and levels from `level` on are empty |
| SkipList.LevelsAreNested | src/Ti-OCSSD/MemoryTier/MemTier.cpp:110-163 | filtering a level by a greater height gives the higher level |
| SkipList.ExactAfterInsert | src/Ti-OCSSD/MemoryTier/MemTier.cpp:110-163 | after an insertion the key leads to the new node and every other key where it led before |
| SkipList.InsertRun | src/Ti-OCSSD/MemoryTier/MemTier.cpp:110-163 | after any run of insertions with any heights in 1..31 a search finds exactly the inserted keys, each with its latest offset |
| ThreadPool.MutexKept | src/LSM-Tree/UtilityDefine/thread_pool.h:46-55 | in every step the mutex is held by exactly the thread inside a locked block |
| ThreadPool.StopFlagKept | src/LSM-Tree/UtilityDefine/thread_pool.h:49-52 | workers that left saw the flag set and the queue empty, workers about to sleep saw neither, refused calls saw the flag set, and all stays true |
| ThreadPool.QueueHistoryKept | src/LSM-Tree/UtilityDefine/thread_pool.h:53-54 | popped tasks followed by queued ones are the accepted ones in order, none twice |
| ThreadPool.RunHistoryKept | src/LSM-Tree/UtilityDefine/thread_pool.h:53-57 | a task was popped as often as it has ended plus how many workers run it |
| ThreadPool.WakeupsKept | src/LSM-Tree/UtilityDefine/thread_pool.h:74-84 | with all workers asleep and no stop, queued tasks never outnumber the notifications still to come |
| ThreadPool.EveryTaskOnce | src/LSM-Tree/UtilityDefine/thread_pool.h:36-86 | in every reachable state tasks are popped first in first out, each popped one runs or has ended exactly once, and all accepted ones have ended when all workers have exited |
| ThreadPool.RefusedOnlyWhenStopped | src/LSM-Tree/UtilityDefine/thread_pool.h:74-84 | in every reachable state a call was refused only if the pool is stopped, and a call is accepted exactly if it has passed its locked block unrefused |
| ThreadPool.NothingAcceptedAfterStop | src/LSM-Tree/UtilityDefine/thread_pool.h:77-82 | along every execution accepted, popped and ended tasks only grow, and once the pool is stopped nothing more is accepted |
| ThreadPool.ExitsOnlyWhenStoppedAndEmpty | src/LSM-Tree/UtilityDefine/thread_pool.h:51-52 | in every reachable state an exited worker implies stop and an empty queue |
| ThreadPool.NoLostWakeup | src/LSM-Tree/UtilityDefine/thread_pool.h:47-84 | in every reachable state with all workers asleep and no stop, each queued task has a caller between its push and notify_one |
| ThreadPool.QuietPoolIsDone | src/LSM-Tree/UtilityDefine/thread_pool.h:36-86 | before the destructor is called the pool comes to rest only with all calls returned, all workers asleep and the task of every call run exactly once |
| ThreadPool.JoinIsNeverStuck | src/LSM-Tree/UtilityDefine/thread_pool.h:89-98 | while the destructor joins, some step is always possible |
| ThreadPool.DestructorReturns | src/LSM-Tree/UtilityDefine/thread_pool.h:89-98 | once the destructor joins, every interleaving has bounded length, accepts nothing more and ends with the join over, all workers gone and every call returned with its task run once, or refused and not run |
| Merge.InOrderMeans | src/LSMTree-NoFTL/merge.h:24-35 | the queue's order means keys ascending and, for one key, values descending |
| Merge.OrderIsUnique | src/LSMTree-NoFTL/merge.h:24-35 | the same entries have only one arrangement in that order |
| Merge.ArrangedIsInOrder | src/LSMTree-NoFTL/merge.h:24-35 | the reference arrangement of any entries is in that order |
| Merge.MergeContext.Insert | src/LSMTree-NoFTL/merge.cpp:27-40 | the queue gains exactly the inserted entries |
| Merge.MergeContext.Contextpop1 | src/LSMTree-NoFTL/merge.cpp:62-76 | releases one entry that no queued entry precedes, and removes just that one |
| Buffer.MemoryBuffer.PutValue | src/LSMTree-NoFTL/buffer.cpp:45-115 | refuses exactly when full, even for a key already there; otherwise the map is the old one with the key set |
| Buffer.MemoryBuffer.GetEntries | src/LSMTree-NoFTL/buffer.cpp:192-223 | lists every pair of the buffer once, keys strictly ascending |
| Buffer.ListingIsInOrder | src/LSMTree-NoFTL/buffer.cpp:192-223 | such a listing is already in merge order and holds exactly the pairs of the buffer |
| Level.Run.RunDataWrite | src/LSMTree-NoFTL/run.cpp:36-53 | writes the run out exactly if it fills whole pages, and otherwise changes nothing |
| Level.Run.PutValue | src/LSMTree-NoFTL/run.cpp:112-133 | the run holds one entry more, MinKey and MaxKey stay its least and greatest key, and a run that becomes full is on its pages, with its last key as the fence pointer |
| Level.BoundsAreKeys | src/LSMTree-NoFTL/run.cpp:116-117 | no key is outside the two bounds, and both are keys of the run |
| Level.NoFTLKVLevel.constructor | src/LSMTree-NoFTL/level.cpp:15-26 | two empty runs of `buffersize * 2^(number - 1)` entries, whole pages each |
| Level.NoFTLKVLevel.PutValue | src/LSMTree-NoFTL/level.cpp:28-38 | the entry goes behind the last one of run 0 followed by run 1, and is lost exactly when both are full |
| Level.NoFTLKVLevel.IsEmpty | src/LSMTree-NoFTL/level.cpp:66-76 | no run is exactly full; on whole runs this means no entries |
| Level.NoFTLKVLevel.IsFull | src/LSMTree-NoFTL/level.cpp:78-88 | no run is empty; on whole runs this means two full ones |
| Level.NoFTLKVLevel.ReadInto | src/LSMTree-NoFTL/StorageManager.cpp:79-86 | the merge context gains exactly the entries of the level |
| Level.NoFTLKVLevel.SettledByLength | src/LSMTree-NoFTL/level.cpp:28-38 | the runs are empty or full exactly if the level holds none, one or two runs' worth of entries |
| Flush.FlushInto | src/LSMTree-NoFTL/StorageManager.cpp:30-113 | levels above the flushed one stay, the flushed one is empty if it was full and unchanged otherwise |
| Flush.FlushIntoSettled | src/LSMTree-NoFTL/StorageManager.cpp:30-113 | runs stay empty or exactly full through the whole cascade |
| Flush.MergedFits | src/LSMTree-NoFTL/StorageManager.cpp:55-110 | what a full level and the made-ready next one hold is one or two whole runs of the next level, so no entry is dropped for want of space |
| Flush.FlushIntoSorted | src/LSMTree-NoFTL/StorageManager.cpp:102-110 | every level read as run 0 followed by run 1 stays in order |
| Flush.FlushIntoConserves | src/LSMTree-NoFTL/StorageManager.cpp:30-113 | every entry occurs on the levels as often as before |
| Flush.FlushIntoCarries | src/LSMTree-NoFTL/StorageManager.cpp:30-113 | a flush carries two runs over as one of the next level: the number the levels stand for stays, and used levels stay in front of unused ones |
| Flush.FlushBufferCounts | src/LSMTree-NoFTL/StorageManager.cpp:122-188 | a buffer flush adds exactly one to the number the levels stand for |
| Flush.RunsAreDigits | src/LSMTree-NoFTL/StorageManager.cpp:30-188 | the run counts are the bijective base-2 digits of that number |
| Flush.RoomMeansBelowTop | src/LSMTree-NoFTL/StorageManager.cpp:37-40 | a flush does not step past the last level exactly while the number is below the largest that the levels can show |
| Flush.AfterFlushes | src/LSMTree-NoFTL/StorageManager.cpp:122-188 | after any run of flushes runs are whole, used levels come first and the levels count the flushes |
| Flush.RunsAfterFlushes | src/LSMTree-NoFTL/level.cpp:19 | after `n` flushes level `i` holds as many runs of its size as digit `i` of `n` says |
| Flush.RoomAfterFlushes | src/LSMTree-NoFTL/StorageManager.cpp:30-113 | the next flush stays within `L` levels exactly if fewer than `2 * (2^L - 1)` went before |
| Flush.AfterFlushesSorted | src/LSMTree-NoFTL/StorageManager.cpp:102-110 | after any run of flushes every level is in order |
| Flush.AfterFlushesConserves | src/LSMTree-NoFTL/StorageManager.cpp:122-188 | after any run of flushes the levels hold each entry as often as it was flushed |
| Flush.FlushIntoKeepsAges | src/LSMTree-NoFTL/StorageManager.cpp:122-188 | what a flush merges down is next in age to what it is merged with |
| Flush.LevelHoldsStretch | src/LSMTree-NoFTL/StorageManager.cpp:122-188 | after any run of flushes a level holds the entries of consecutive flushes, each newer than every flush on a deeper level; where the stretch starts and ends is given by the binary digits of the number of flushes |
| Flush.WholeRunsExactlyWhen | src/LSMTree-NoFTL/StorageManager.cpp:104-109 | one or two runs' worth of entries leave none, one or two runs' worth exactly if the tombstones among them make up whole runs |
| Tree.Drain | src/LSMTree-NoFTL/StorageManager.cpp:102-110 | draining the context into an empty level leaves the live entries there in the one merge order |
| Tree.WholeRunsAfterDrain | src/LSMTree-NoFTL/StorageManager.cpp:102-110 | the level's runs are then empty or full exactly if the tombstones dropped make up whole runs |
| Tree.TombstoneLeavesPartRun | src/LSMTree-NoFTL/StorageManager.cpp:149-170 | a buffer of keys 3 and 4, 3 with a tombstone, merged into a level of runs of two that holds 1 and 2, leaves 1, 2, 4 and a part-filled run |
| Tree.LSMTreeNoFTL.constructor | src/LSMTree-NoFTL/StorageManager.cpp:20-28 | the first tree of a program has empty levels of doubling size and counts no flush |
| Tree.LSMTreeNoFTL.FlushInto | src/LSMTree-NoFTL/StorageManager.cpp:30-113 | the recursive method on runs does to the levels what the cascade on sequences does; the program's assertion that the next level is empty holds |
| Tree.LSMTreeNoFTL.PutValue | src/LSMTree-NoFTL/StorageManager.cpp:122-188 | the buffer gains the pair, after its listing was flushed if it was full; the levels are then those of one more flush |
| Tree.LSMTreeNoFTL.LevelOfTree | src/LSMTree-NoFTL/level.cpp:15-38 | in every state a level has whole runs, as many as the digit of the flush count says, and is in order |
| Tree.LSMTreeNoFTL.EntriesOfTree | src/LSMTree-NoFTL/StorageManager.cpp:122-188 | in every state the levels hold each entry as often as it was flushed |
| Tree.LSMTreeNoFTL.AgesOfTree | src/LSMTree-NoFTL/StorageManager.cpp:122-188 | in every state the levels are ordered by the age of the flushes they hold |
| LinearHash.AddressCases | src/MultiHash/LinearHash/LiHash.cpp:343-349 | the two moduli give the same bucket or one `h1` above, the latter only under a set flag |
| LinearHash.SpreadAll | src/MultiHash/LinearHash/LiHash.cpp:277-286 | redistributing a bucket fills exactly its two halves, each with its share, and doubles the table exactly when some entry goes up |
| LinearHash.SplitPlaces | src/MultiHash/LinearHash/LiHash.cpp:266-308 | after a first split in any order, at every end of a level too, each entry is in the bucket that `Search` addresses |
| LinearHash.SplitGoodExactlyWhen | src/MultiHash/LinearHash/LiHash.cpp:266-308 | the whole invariant is kept exactly if the level goes on or the table has been doubled in it |
| LinearHash.AdvanceKeepsAddresses | src/MultiHash/LinearHash/LiHash.cpp:299-304 | with all flags set, doubling `h1` and `h2` and clearing the flags moves no key |
| LinearHash.SplitConserves | src/MultiHash/LinearHash/LiHash.cpp:266-308 | every entry occurs in the table as often as before the split |
| LinearHash.SearchIsExact | src/MultiHash/LinearHash/LiHash.cpp:58-88 | looking into the addressed bucket finds exactly the stored keys, whatever old pages hold |
| LinearHash.InRangeExactlyWhen | src/MultiHash/LinearHash/LiHash.cpp:341-351 | every search stays in the table exactly if it is doubled or no flag is set |
| LinearHash.SplitStaysInRange | src/MultiHash/LinearHash/LiHash.cpp:266-308 | after a split every search stays in the table exactly if it was doubled before or some entry moves up |
| LinearHash.MergeGoodExactlyWhen | src/MultiHash/LinearHash/LiHash.cpp:389-413 | the merge keeps every entry where `Search` looks, and nothing else there, exactly if it does not leave an empty bucket over an old page with keys that now belong there |
| LinearHash.MergeRevives | src/MultiHash/LinearHash/LiHash.cpp:389-413 | otherwise such a key is stored nowhere and found |
| LinearHash.MergeConservesExactlyWhen | src/MultiHash/LinearHash/LiHash.cpp:405-410 | the merge loses no entry exactly if the upper half is in memory |
| LinearHash.MergeUndoesSplit | src/MultiHash/LinearHash/LiHash.cpp:389-413 | merging right after a split that left the upper half in memory restores flags, the other buckets and the bucket's entries |
| LinearInsert.InsertGoodExactlyWhen | src/MultiHash/LinearHash/LiHash.cpp:310-339 | an insertion keeps every entry where `Search` looks exactly if the bucket is not full, or is split for the first time and has an entry for the other half |
| LinearInsert.InsertAddsOneExactlyWhen | src/MultiHash/LinearHash/LiHash.cpp:310-339 | under that condition, and only then, the table holds just the new entry more |
| LinearInsert.InsertLeavesLevelOpen | src/MultiHash/LinearHash/LiHash.cpp:289-304 | after any insertion some bucket of the level is unsplit |
| LinearInsert.InsertHides | src/MultiHash/LinearHash/LiHash.cpp:330-336 | otherwise a search finds none of the bucket's older entries |
| LinearInsert.InsertStandsAlone | src/MultiHash/LinearHash/LiHash.cpp:330-336 | the new entry is alone in memory over the page with all the older entries, and a search finds it |
| LinearInsert.InsertStaysInTableExactlyWhen | src/MultiHash/LinearHash/LiHash.cpp:330-336 | after a first split the chosen index is in the table exactly if, taken by the `h2` of the level then reached, it is below the old `h1` or, when the table is doubled, below twice that |
| LinearInsert.InsertAfterLevelEnd | src/MultiHash/LinearHash/LiHash.cpp:333-336 | when the split ends the level, the index of every key in the upper half is past the end of the table |
| LinearTable.FirstSplitHides | src/MultiHash/LinearHash/LiHash.cpp:330-336 | with two buckets of two entries, inserting 4, 8, 12 leaves 4 and 8 not found |
| LinearTable.SearchLeavesTable | src/MultiHash/LinearHash/LiHash.cpp:266-308 | the split made there leaves searches that go past the table |
| LinearTable.LevelEndLeavesTable | src/MultiHash/LinearHash/LiHash.cpp:330-336 | with one bucket of two entries holding 2 and 3, the insertion of 7 goes past the table |
| LinearTable.RemovedCount | src/MultiHash/LinearHash/LiHash.cpp:92-102 | a removal from a bucket in memory takes just the first entry of the key out |
| LinearTable.RemovedGoodExactlyWhen | src/MultiHash/LinearHash/LiHash.cpp:92-102 | it keeps every entry where `Search` looks, and nothing else there, exactly if it does not empty a bucket over an old page with keys of its own |
| LinearTable.DeletedGoodExactlyWhen | src/MultiHash/LinearHash/LiHash.cpp:378-415 | the same for the whole deletion, with the merge or without |
| LinearTable.DeletedCount | src/MultiHash/LinearHash/LiHash.cpp:378-415 | a deletion takes out the first entry of the key and what its merge drops, and nothing else |
| LinearTable.DeletedTakesOneExactlyWhen | src/MultiHash/LinearHash/LiHash.cpp:378-415 | just the first entry of the key goes exactly if the deletion does not merge with an upper half on its page |
| LinearTable.DeletedOutcome | src/MultiHash/LinearHash/LiHash.cpp:378-415 | the flag of a split bucket stays set exactly if what remains and the other half do not fit into a page; otherwise the other half becomes new and its entries in memory join those that remain; no other flag or bucket changes |
| LinearTable.DeleteLosesAndRevives | src/MultiHash/LinearHash/LiHash.cpp:378-415 | after 6, 10 and 4 are inserted, deleting 4 leaves 6 and 10 stored nowhere and 6 found |
| LinearTable.LinearHashTable.constructor | src/MultiHash/LinearHash/LiHash.cpp:215-235 | a new table satisfies the invariant and holds no entry |
| LinearTable.LinearHashTable.TableDouble | src/MultiHash/LinearHash/LiHash.cpp:255-263 | `h1` empty buckets follow the old ones |
| LinearTable.LinearHashTable.split | src/MultiHash/LinearHash/LiHash.cpp:266-308 | the loops change table, flags and moduli as the split function does, for a first split and for a repeated one |
| LinearTable.LinearHashTable.Insert | src/MultiHash/LinearHash/LiHash.cpp:310-339 | the method does what the insertion function does; the table is valid afterwards, and holds just the new entry more, exactly if there was room or a first split makes some |
| LinearTable.LinearHashTable.Search | src/MultiHash/LinearHash/LiHash.cpp:341-365 | 0 exactly for the keys stored anywhere in the table, -1 for all others; for key 0 exactly if the first entry found has a value other than 0 |
| LinearTable.LinearHashTable.Judge | src/MultiHash/LinearHash/LiHash.cpp:367-376 | the entries of both halves fit into one page; for a split bucket of a good table, exactly that the halves can be merged |
| LinearTable.LinearHashTable.ValueDelet | src/MultiHash/LinearHash/LiHash.cpp:90-102 | on a bucket with entries in memory the first entry of the key goes, and nothing else |
| LinearTable.LinearHashTable.MergeHalves | src/MultiHash/LinearHash/LiHash.cpp:393-411 | the block changes table and flags as the merge function does |
| LinearTable.LinearHashTable.Delete | src/MultiHash/LinearHash/LiHash.cpp:378-415 | on a bucket with entries in memory: flags and buckets afterwards are those of `DeletedOutcome`, and the table is valid exactly under the condition of `DeletedGoodExactlyWhen` |
| Lru.RecencyIsDistinct | src/LRU/lru.cpp:3-44 | the recency list has each used page once and no other |
| Lru.RecencyOrder | src/LRU/lru.cpp:3-44 | the recency list is ordered by the last use of each page |
| Lru.CacheIsMostRecent | src/LRU/lru.cpp:3-44 | after any gets and puts the list is exactly the most recently used pages, as many as fit, in recency order |
| Lru.CacheIsCurrent | src/LRU/lru.cpp:20-44 | every cached node is the one last put for its page |
| Lru.ServedIsMostRecent | src/Ti-OCSSD/StoreTier/syncstore.cpp:91-110 | when every missed get is followed by its put, the list is the most recent of all pages asked for |
| Lru.SmallerIsIncluded | src/Ti-OCSSD/StoreTier/syncstore.cpp:91-110 | under such requests a smaller cache always holds the front part of what a larger one holds |
| Lru.EraseByIterator | src/LRU/lru.cpp:11-15 | erasing through the map's iterator removes just the page's node, and list and map still match |
| Lru.LRUCache.get | src/LRU/lru.cpp:3-18 | answers with the page's node exactly if it is cached and moves it to the front; list and map stay in bijection |
| Lru.LRUCache.put | src/LRU/lru.cpp:20-44 | the node is in front, an old one of the same page is gone, a full list loses its last; list and map stay in bijection |
| Lru.LRUCache.ClearaReset | src/LRU/lru.cpp:58-67 | an empty cache of the new capacity |
| Striping.ReadsFollowStripe | src/Backend/SSDWrite/parallel_writer.cpp:289-313 | page `n` of a read is at LUN `m mod N` and offset `r + (m div N) * ws_min`, `m` counting from the first page of the stripe |
| Striping.WritesFollowStripe | src/Backend/SSDWrite/parallel_writer.cpp:225-266 | if the threads divide the LUNs and the first page, page `n` of a batched write is at the same place |
| Striping.ReadsWhatWasWritten | src/Backend/SSDWrite/parallel_writer.cpp:225-313 | then page `n` is read where it was written |
| Striping.PagesAreApart | src/Backend/SSDWrite/parallel_writer.cpp:225-266 | no two pages of a stripe share a sector while they fit into their LUNs |
| Striping.PageInLun | src/Backend/SSDWrite/parallel_writer.cpp:225-266 | a page that fits lies wholly within its LUN |
| Striping.AgreeExactlyWhen | src/Backend/SSDWrite/parallel_writer.cpp:225-313 | from any LUN on, writes and reads agree on a run exactly if it ends before the first wrap, or its first lap is whole batches and either every lap is or it ends before the second wrap |
| Striping.MisreadFromSecondLun | src/Backend/SSDWrite/parallel_writer.cpp:228-313 | two LUNs, two threads, a run from the second LUN: page 1 is written to sector 32, past the stripe, and read from sector 4 |
| Striping.WrittenAtEnd | src/Backend/SSDWrite/parallel_writer.cpp:228-265 | the first page after the first lap is written one page further on LUN 0, or past the last LUN when a batch crosses the end |
| Striping.BrokenBatch | src/Backend/SSDWrite/parallel_writer.cpp:228-313 | in the latter case it is read from LUN 0 |
| Striping.CursorAfterBatches | src/Backend/SSDWrite/parallel_writer.cpp:257-265 | for any number of threads, batch `b` from LUN `f` on starts `b` times the threads further around the stripe, one page deeper for each wrap |
| Striping.WrittenAnywhere | src/Backend/SSDWrite/parallel_writer.cpp:225-266 | where each page of a run is written, in any batch and for any number of threads |
| Striping.AfterBrokenBatch | src/Backend/SSDWrite/parallel_writer.cpp:257-261 | the batch after one that crosses the end starts on the LUN behind its last page, taken around the stripe, one page deeper |
| Striping.FourPagesFromSecondLun | src/Backend/SSDWrite/parallel_writer.cpp:228-265 | two LUNs, two threads, from the second LUN on: sectors 16, 32, 20 and 36 |
| Striping.StaysExactlyWhen | src/Backend/SSDWrite/parallel_writer.cpp:289-313 | what a run reads stays on the LUNs from `lo` on exactly if it starts there and ends before the first wrap |
| Striping.WritesStayExactlyWhen | src/Backend/SSDWrite/parallel_writer.cpp:225-266 | so does what it writes, whatever the threads divide |
| Striping.FirstChannelWrites | src/Backend/SSDWrite/parallel_writer.cpp:225-266 | from sector 0 on, the pages written stay within the stripe exactly if the threads divide the LUNs or the run ends before the first wrap |
| Striping.ChannelKeepsToItself | src/main.cpp:99-121 | for a channel started where the program starts it, exactly when what a run reads, and what it writes, stays on the channel's own LUNs |
| Striping.ChannelsCollide | src/Backend/SSDWrite/parallel_writer.cpp:257-307 | a run that starts on a whole page reads, after its first lap, a page of channel 0, and writes it if the lap was whole batches, else past its last LUN |
| Striping.SecondPagesCollide | src/main.cpp:99-121 | two groups of one unit with two chunks of two pages: the second pages of channels 0 and 1 are written to and read from the same sector |
| Striping.Coordinator.constructor | src/main.cpp:99-121 | channel `c` starts at `c * npugrp * npunit * nsectr` |
| Striping.Coordinator.Write | src/Backend/SSDWrite/parallel_writer.cpp:193-267 | the pages handed to the threads are those of the write formula, and only this channel's pointer moves, by the whole batches |
| Striping.Coordinator.Read | src/Backend/SSDWrite/parallel_writer.cpp:284-365 | the pages read are those of the one-step formula, whole batches and remainder alike |

## Left out

- liblightnvm, device geometry, message queues, threads as such, timing and printing: foreign code and I/O. The device is chunks with write pointers and pages; a write fails exactly off the chunk's write pointer, other commands succeed.
- ExtendibleDirectory.Directory.remove: needs a bucket with entries in memory, as `ExBucket.Remove` does. On a bucket that is on its page or empty `Remove` and `Update` read the page back and add `maxsize` to the size, which on a full bucket already is `maxsize`; those branches are not modelled, nor is `Update` otherwise.
- ExtendibleBucket.ExBucket.PageWrite: a first page write that makes the sector pointer start over is excluded, since it erases other buckets' pages. The same holds for the members built on it, each named on a line of its own:
- ExtendibleBucket.ExBucket.Insert: as PageWrite, for a bucket without a page.
- ExtendibleDirectory.Directory.Reinsert: as PageWrite.
- ExtendibleDirectory.Directory.split: as PageWrite.
- ExtendibleDirectory.Directory.insert: as PageWrite; what the store does after the pointer has started over is `PageStore.SecondPassRun`.
- ExtendibleDirectory.InsertAll: a run ends before the first insertion for which the bound on fresh pages does not leave room.
- ExtendibleDirectory.Directory.merge: the number of pages after removals is not bounded, since a deleted bucket's page is never reused.
- `bucket_id`, `display` and the message-printing drivers of both hash indexes: output only.
- PageStore.Store.PageUpdate: a page is the entries written over the front of the shared buffer; what of the rest is read back as entries depends on the reader's page length, which is taken to be the page capacity.
- SkipList.List.InsertNode: the drawn level is a parameter below 32. `RandomLevel` can also draw 32, after which the descent would read one pointer beyond the head's array.
- SkipList.List.InsertNode: `SyncWrite` is the offset parameter; the branch for a node with flag 0 cannot be reached by insertions and is not modelled.
- The partition table of the memory tier (`DoubleHashtable`, `Globaldepth`): each partition is one independent list.
- Level.Run.SingleRunRead: a run's pages are modelled by their contents; the addresses are those of `Striping`, whose connection to run contents (buffers of the reading threads) is not modelled.
- Tree.LSMTreeNoFTL.PutValue: values are not 0. Tombstones can leave a part-filled run (`Flush.WholeRunsExactlyWhen`), whose `SingleRunRead` would read pages that were never written.
- Tree.LSMTreeNoFTL.constructor: the level number comes from a counter of the whole program; only the first tree is modelled, a second one would start with larger runs.
- Lookup in levels and runs (`GetValue`, fence pointers): the fence-pointer vector and the page pointers it is meant to index are never filled page by page, so the lookup has no live data path.
- LinearTable.LinearHashTable.Delete: needs a bucket with entries in memory. On a bucket that is on its page or empty `ValueDelet` reads the page back and adds `BucketMax` to the size, which on a full bucket already is `BucketMax`; that branch and `ValueUpdate` are not modelled.
- LinearTable.LinearHashTable.Insert: needs that the chosen indices are in the table; `LinearInsert.InsertStaysInTableExactlyWhen` says when they are.
- LinearTable.LinearHashTable.split: the bucket's page is modelled by its contents; the flag array has 65535 places and levels beyond that are not modelled.
- Level.NoFTLKVLevel.ReadInto: runs are empty or full; a part-filled run names pages that were never written.
- Lru.LRUCache.put: the node put under a page carries that page's number, and page numbers fit the map's `int` key.
- Striping.Coordinator.Write: whole batches only, as the loops read buffers beyond the last page otherwise; buffers and thread results are not modelled.
- Widths of machine integers: key, sector and size arithmetic is on unbounded numbers.
- `src/LSM-Tree` (tree, run, level), `src/MultiHash/LazySplitHash`, `src/MultiHash/EagerSplitHash`, `src/Ti-OCSSD/StoreTier`: unfinished or without a data path; Bloom filter, FIFO cache and formatting would add only easy members.

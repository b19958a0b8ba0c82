# WispDB: a verified model

WispDB is a log-structured storage engine for time series. A key is a series and a timestamp; a write goes to a
segmented write-ahead log and then into a skiplist memtable; a full memtable is frozen and flushed to an SSTable of a
new generation; compaction merges tables, and reads consult mutable memtable, immutable memtable and tables, newest
first. This project models each layer in Dafny and proves that they refine one simple thing: the map obtained by folding
the history of writes.

## How the model is built

- **Values.** `Base`, `LittleEndian`, `History` (the fold of the writes), `SortedEntries` (a sorted sequence as a map),
  `Generations` (tables by generation), `SegmentLog` (the log as segments of records).
- **The engine as a state machine.** `Engine` has one step for every critical section or atomic action: append, put,
  freeze, the five stages of a flush, one reclaimed segment, the four stages of a compaction, one unlinked file, crash.
  Every interleaving of writers, a flush and a compaction is a run. `EngineInvariant` proves that each step keeps the
  invariant, `EngineTheorems` says what follows for whole runs, and `Compaction`, `Unlinking` and `Overtaking` say what
  table operations do to the view and when they go wrong.
- **The log.** `WalRecord` has the framing and the replay of one segment, `Wal` the directory of segments as an object.
- **Merges.** `Merge` and `MergeHeaps` have the theory of a k-way merge over any ranking of the sources; `Compactor` and
  `Scanner` are its two loops.
- **Tables on disk.** `Blocks`, `Bloom`, `SSTableFiles`, `SSTableWriter`, `SSTableReader`, `SSTableIterator`; `SSTables`
  puts them together.
- **The memtable.** `Towers` and `Skiplists` (nodes with forward arrays), `MemTables`.
- **The table list.** `RefCounts` is the reference count of one file under any number of threads, `TableLists` the list as
  one thread drives it.
- **The database object.** `Wisps.Wisp` has the fields of the source's `Wisp`, driven by one thread at a time. A ghost
  field holds the state of the engine's machine, and every method is proved to be a run of it that starts in the empty
  database (`Sequential`, `WispStates`, `WrittenKeys`). `Sessions` puts whole lives of a database together, from an empty
  directory through restarts and crashes.

## What runs are assumed to keep

The theorems over runs of the engine are about runs in which every step is `Engine.Disciplined`. These are conditions that
the code relies on and does not check; each is needed, as the findings show.

- A flush does not publish between a compaction's capture of its tables and the moment the compaction takes its
  generation, and a compaction does not take its generation while a flush holds one that is not yet published.
- A compacted range is the newest run of tables and the compaction is minor, or it is all tables.
- At a crash, a record torn by an earlier crash is still at the very end of the log.
- At a crash, the files that major compactions have retired and that are still on disk are upward closed by generation.

`RefCounts.Disciplined` asks that a table is still listed when `ReplaceTables` or `Close` drops the list's reference to it.

## Findings

Each is a property that the code does not have in general, with the condition under which it has it.

- **A flush can be overtaken.** `CompactAll` reads the list and then takes its generation, with no lock between
  (compactor/compact.go:160, compactor/compact.go:178). A flush that took its generation before is published below the
  merged table, and an overwritten value is visible again: `Overtaking.OvertakingHappens` gives the run from the empty
  database. `Compaction.CompactionSafeIff` and `Compaction.PublishSafeIff` give the exact order on generations.
- **Old files are unlinked newest first.** After a major compaction a crash part-way through brings deleted keys back:
  `Unlinking.CrashDuringUnlinkIff` gives the harmless sets of survivors, `Unlinking.NewestFirstOrderIsUnsafe` applies it to
  the order in the code.
- **A torn record is not cut off.** Replay tolerates it and the segment is reopened for appending (wal/wal.go:193-207).
  Whatever is appended behind it may be lost or make the log unreadable: `WalRecord.AppendAfterTornTailIff` shows that
  appending is safe exactly if nothing, or all, of the torn record is on disk.
- **Records are not limited when they are written.** Replay refuses a payload above 64 MiB, append does not:
  `WalRecord.ReplaySucceedsIff`.
- **Overlapping compactions drop a reference twice.** `RefCounts.OverlappingCompactions` is a run in which the reader of a
  table is closed and its file removed while a thread still holds it; `RefCounts.TakeOffKeepsInvIff` has the condition.
- **The block splitter adds in uint32.** `SSTableWriter.SplitGuardExactIff` says when its guard decides as the exact sum
  would.
- **`Flush` does not always flush.** With a full mutable memtable and no immutable one it does nothing; the contract of
  `Wisps.Wisp.Flush` says so.
- The repository's README says that recovery replays only what has not been flushed. The code also replays a flushed
  segment that a crash has kept from being reclaimed; the proofs follow the code (`History.FoldOverlap` is why it is
  harmless).

## Model

| member | source | states |
|---|---|---|
| History.FoldOverlap | wisp.go:485-505 | replaying any suffix of the history over tables that hold any prefix reaching into it rebuilds the whole history |
| EngineInvariant.StepKeepsInv | wisp.go:529-600 | every step that keeps the rules keeps the invariant on memtables, log, flush, generations, tables and files, whatever else is under way |
| EngineTheorems.ViewRefinesHistory | wisp.go:340-431 | in every state of every run, mutable over immutable over tables shows exactly the writes performed so far, between publication and clearing as well |
| EngineTheorems.CrashRecovery | wisp.go:485-505 | a crash after any step of any run reopens to a state that shows every acknowledged write, and the one in flight if its record survived |
| WispStates.LogLeftReplays | wal/wal.go:323-348 | however many bytes of the record in flight a crash keeps, the segment files are those of the reopened state's log with torn bytes at the very end, and replay returns all its records |
| WispStates.LoadAndReplayRecover | wisp.go:485-505 | replaying those bytes over the tables found on disk shows every acknowledged write, and the one in flight exactly if all its bytes are there |
| EngineTheorems.ReclaimSafety | wisp.go:529-600 | in every state of every run the surviving segments are a suffix of everything logged, and both memtables can be rebuilt from it |
| EngineTheorems.GetLinearizable | wisp.go:433-478 | layers captured together and looked up later give the value of the abstract map at some instant between the capture and the lookup in the mutable memtable |
| EngineTheorems.NobodyWaits | wisp.go:340-600 | the runs are all the interleavings: in every state of every run writers, flush and compaction can each take their next step, but for the lock a writer holds and the order on generations, and a crash can come but for the two conditions on the disk named above |
| Compaction.ReplaceKeepsView | sstable/sstable_list.go:133-177 | swapping tables for their merge changes no visible value when the generations are in order |
| Compaction.CompactionSafeIff | compactor/compact.go:156-214 | a compaction keeps the view whatever the tables hold if and only if every other table is newer than the target or, for a minor one, older than all that is merged |
| Compaction.PublishSafeIff | sstable/sstable_list.go:111-131 | a flushed table shows over the listed ones whatever they hold if and only if its generation is the highest |
| Overtaking.OvertakenFlushIsStale | compactor/compact.go:156-192 | from any state with a numbered flush and a compaction that has captured all tables, six steps the code allows make an older value win |
| Overtaking.OvertakingHappens | compactor/compact.go:160-178 | such a state is reached from the empty database by a run that keeps every rule, for every key and every two values |
| Unlinking.CrashDuringUnlinkIff | sstable/sstable_list.go:165-174 | after a minor compaction any subset of the old files may survive; after a major one the reopened view is unchanged, whatever the tables held, if and only if the survivors are upward closed |
| Unlinking.NewestFirstOrderIsUnsafe | sstable/sstable_list.go:158-174 | unlinking in list order leaves survivors that are not, until the last file is gone |
| WalRecord.EncodePayload | wal/wal.go:52-67 | the buffer holds what it held before the offset and then exactly the payload |
| WalRecord.PayloadRoundTrip | wal/wal.go:52-96 | decoding undoes encoding if and only if the value's length fits its 32-bit field |
| WalRecord.ReplaySegment | wal/wal.go:350-401 | the loop returns exactly the records that the bytes read as, and an error for all other bytes; behind any number of good records a wrong checksum fails it |
| WalRecord.ReplayAcceptsIff | wal/wal.go:350-401 | replay yields a sequence of records if and only if the bytes are these records, each with the checksum of its payload and a length of at most 64 MiB, and behind them nothing or, where tolerated, what is left of a cut record |
| WalRecord.ChecksumRefused | wal/wal.go:388-392 | a whole record whose stored checksum is not that of its payload fails the replay, whatever good records come before it |
| WalRecord.TornTail | wal/wal.go:350-401 | of a segment cut at any byte, tolerant replay returns exactly the records wholly before the cut, and strict replay succeeds exactly at record boundaries |
| WalRecord.ReplaySucceedsIff | wal/wal.go:372-377 | a segment can be read back if and only if no payload exceeds the limit that append does not check |
| WalRecord.LostAfterTornTail | wal/wal.go:193-207 | records that fit into the gap of a torn payload are silently lost |
| WalRecord.AppendAfterTornTailIff | wal/wal.go:193-207 | everything appended behind the first n bytes of a record is read back, whatever is appended, if and only if n is zero or the whole record |
| Wal.WAL.AppendRecord | wal/wal.go:222-256 | if the active segment is not empty and would grow over the maximum with the record, the record is all there is in the next segment, and else it is behind what was in the active one; no other byte changes, and a closed log refuses |
| Wal.WAL.RotateLocked | wal/wal.go:268-284 | the active segment is sealed, its id is returned and the next one starts, empty; no byte changes |
| Wal.WAL.RemoveSegmentsUpTo | wal/wal.go:302-320 | exactly the files of the sealed segments up to the id are gone, and never the active one |
| Wal.WAL.Replay | wal/wal.go:323-348 | every whole record of every segment in order, torn bytes at the end of the last segment notwithstanding |
| Wal.ReplayAll | wal/wal.go:323-348 | on any directory the segments are read as exactly the records they hold in order, only the last being allowed a cut record; one wrong checksum in any segment fails it |
| Wal.WAL.Reopen | wal/wal.go:193-207 | the highest segment found is resumed with its full length, torn bytes included |
| Wal.ReplayAfterCrash | wal/wal.go:323-348 | with the last segment cut at any byte, replay returns the sealed segments and the whole records of the last |
| Wal.CrashLeavesLog | wal/wal.go:222-256 | whichever bytes of the last record survive, the directory is that of the whole log, of the log without the record, or of the latter with torn bytes |
| Skiplists.Skiplist.Insert | skiplist/skiplist.go:84-112 | for every node level in range the structure stays valid and the map changes at exactly one key; a present key changes no link |
| Skiplists.Skiplist.Levels | skiplist/skiplist.go:64-112 | following level l from the head visits exactly the nodes taller than l; level 0 is all of them, each level is a sublist of the one below, levels not in use are empty |
| Skiplists.Skiplist.EntriesSorted | skiplist/skiplist.go:84-112 | level 0 is strictly sorted |
| Skiplists.Skiplist.Search | skiplist/skiplist.go:122-134 | finds the node of the key if and only if the map has the key |
| Skiplists.Skiplist.Lookup | skiplist/skiplist.go:136-142 | is a lookup in the map |
| Skiplists.Iterator.Entry | skiplist/skiplist.go:57-62 | the entry at the iterator's place in the sorted sequence |
| MemTables.MemTable.Put | memtable/memtable.go:51-58 | appends to the writes the memtable folds, or refuses when frozen; the size grows by 16 and the length of the value, in uint64 arithmetic |
| MemTables.MemTable.Delete | memtable/memtable.go:60-67 | likewise for a tombstone, which counts 17 |
| MemTables.MemTable.Lookup | memtable/memtable.go:77-79 | the newest cell of the key among the writes |
| MemTables.MemTable.Entries | wisp.go:557-571 | the iterator yields every key once, ascending, with its newest cell |
| MemTables.SizeZeroIsEmpty | memtable/memtable.go:81-83 | a size of zero means that nothing was written, unless the sum has wrapped around |
| Merge.ItemLessIsStrictOrder | compactor/compact.go:28-37 | the heap order is a strict order, total on items of one source or of different ranks |
| Compactor.HeapLessIsItemLess | compactor/compact.go:28-37 | minHeap.Less is that order with newer generations first |
| MergeHeaps.MergeHeap.Pop | compactor/compact.go:45-51 | yields the next item in merge order and pushes its source's next one |
| Compactor.CompactSSTables | compactor/compact.go:54-134 | the loop ends with a strictly sorted output that holds exactly the highest-generation entry of every key, less tombstones if and only if the compaction is major |
| Compactor.WrittenIsMerge | compactor/compact.go:54-134 | what the loop writes is the table that the engine's compaction step publishes |
| Scanner.ScanLessIsItemLess | wisp.go:43-51 | scanMinHeap.Less is the merge order with earlier sources first |
| Scanner.ScanIterator.Next | wisp.go:169-245 | yields one more entry of the merge, or nothing once every source is exhausted |
| Scanner.ScanIterator.Drain | wisp.go:169-245 | repeated Next yields, in ascending order, exactly the newest entries in range that are not tombstones |
| Scanner.ScanShowsHistory | wisp.go:87-163 | a scan of the snapshot yields exactly the values that the history leaves in the series and the time range |
| Blocks.Block.Add | sstable/block.go:14-17 | appends the entry; the size is the exact total modulo 2^32 |
| Blocks.Block.Encode | sstable/block.go:50-65 | whatever the scratch buffer held, its first size bytes are the block's encoding |
| Blocks.EncodeEntry | sstable/block.go:29-48 | writes exactly the entry's encoding at the offset and touches nothing before it |
| Blocks.ParseBlock | sstable/reader.go:209-249 | the decoding loop on any bytes, errors included |
| Blocks.ParseAcceptsIff | sstable/reader.go:209-249 | a block decodes to a sequence of entries if and only if its bytes are these entries one behind the other |
| Blocks.ProbeBlock | sstable/reader.go:255-291 | the searching loop on any bytes, errors included |
| Blocks.ProbeRefinesParse | sstable/reader.go:209-291 | on bytes that decode the search returns the first match of the decoded entries, and it fails only where decoding fails |
| Blocks.BlockRoundTrip | sstable/block.go:29-65 | decoding a block's encoding gives its entries back |
| Bloom.BloomFilter.Add | sstable/bloom.go:65-76 | sets exactly the bits the key hashes to, with wrapping positions, all inside the array |
| Bloom.PositionIsDoubleHash | sstable/bloom.go:65-76 | the i-th position is what i additions of the second hash to the first one give in uint64 arithmetic, modulo the number of bits |
| Bloom.MayContain | sstable/bloom.go:97-113 | true if and only if the filter is not empty and every position of the key is set: a key added passes |
| Bloom.FilterRoundTrip | sstable/bloom.go:78-95 | decoding an encoded filter gives it back |
| SSTableFiles.FileRoundTrip | sstable/writer.go:92-162 | opening what the writer wrote recovers index, filter and entry count, and the bytes whose checksum is verified are exactly those that were hashed |
| SSTableFiles.OpenAcceptsIff | sstable/reader.go:34-124 | a file opens as the given index, filter and count if and only if its bytes say so: magic, version, whole index records, a whole filter, and the checksum of everything up to the end of these |
| SSTableFiles.ChangedFileRefused | sstable/reader.go:95-104 | whatever the bytes before the footer have become, the file is refused if their checksum is not the one in the footer |
| SSTableFiles.FooterOfFile | sstable/writer.go:92-162 | in a written file the footer has the positions and lengths of index and filter, the number of entries, and the checksum of all bytes before it |
| SSTableWriter.Writer.Add | sstable/writer.go:53-65 | a block that is not empty and would grow over the block size with the entry is written and the entry starts the next one, and else the entry joins it; sums do not wrap |
| SSTableWriter.SplitGuardExactIff | sstable/writer.go:53-60 | the wrapping comparison decides as the exact one does if and only if the sum fits or its remainder still exceeds the block size |
| SSTableWriter.Writer.Close | sstable/writer.go:142-162 | the file is the layout of blocks that concatenate to the entries added, and every series added is covered by the filter |
| SSTableReader.Reader.ReadFooter | sstable/reader.go:34-71 | accepts a file exactly if magic, version, index size, filter and checksum are right, and then holds what they lead to |
| SSTableReader.Reader.FindBlock | sstable/reader.go:192-207 | the binary search splits the index exactly at the first block that starts above the key |
| SSTableReader.Reader.Get | sstable/reader.go:126-145 | fails exactly when the filter lets the series pass and the last block that starts at or below the key cannot be searched; on a file whose index leads to sorted blocks the answer is that of a linear search of all entries |
| SSTableReader.WrittenServes | sstable/reader.go:21-32 | a closed file opens, and its index leads to the bytes of every block |
| SSTableIterator.Iterator.Next | sstable/iterator.go:45-57 | removes the first of the entries still to be yielded, on any file, up to the first unreadable block |
| SSTableIterator.YieldsUpToUnreadable | sstable/iterator.go:59-85 | on any file: all entries of the blocks before the first that cannot be read, and nothing of the rest |
| SSTableIterator.YieldsAll | sstable/iterator.go:59-85 | over a closed file these are exactly the entries that were added |
| SSTables.StoreAndGet | sstable/reader.go:126-145 | for all sorted entries of manageable size: write, close, open, look up, and the answer is that of a linear search |
| SSTables.StoreAndIterate | sstable/iterator.go:13-85 | for all entries of manageable size: write, close, open, iterate, and the same entries come out |
| RefCounts.CountIsExact | sstable/sstable_list.go:33-70 | in every interleaving the count is the list's reference plus those that threads still owe |
| RefCounts.HeldReaderIsOpen | sstable/sstable_list.go:33-70 | from a successful IncrRef to its DecrRef the reader is open and the file exists |
| RefCounts.NeverRevived | sstable/sstable_list.go:33-43 | a count of zero stays zero |
| RefCounts.RemovedIsUnreferenced | sstable/sstable_list.go:45-70 | a file is gone only when it is unlinked, unlisted and unreferenced |
| RefCounts.ListedIsAcquired | sstable/sstable_list.go:96-109 | IncrRef fails for no listed file, so GetTables leaves none out |
| RefCounts.DoneIsClosed | sstable/sstable_list.go:45-70 | once all threads are done with an unlisted file its reader is closed, and it is gone from the disk if and only if some thread had taken it off the list to retire it |
| RefCounts.MarksRecord | sstable/sstable_list.go:133-191 | in every execution, kept rules or not, a file is unlinked if and only if a thread marked it after taking it off the list to retire it, and closed if and only if after a shutdown |
| RefCounts.OnlyRetiringRemoves | sstable/sstable_list.go:179-191 | a run in which the list is only shut down keeps the file |
| RefCounts.RaisedFromPositive | sstable/sstable_list.go:33-43 | in every execution only the compare-and-swap of IncrRef raises the count of a published file, by one and from a positive value |
| RefCounts.IncrRefAlone | sstable/sstable_list.go:33-43 | undisturbed, IncrRef succeeds if and only if the count is positive and the file neither unlinked nor closed, and else changes nothing |
| RefCounts.DecrRefAlone | sstable/sstable_list.go:45-70 | undisturbed, DecrRef with the last reference closes the reader and removes an unlinked file, and else only counts |
| RefCounts.TakeOffKeepsInvIff | sstable/sstable_list.go:165-174 | dropping the list's reference keeps the account if and only if the list still has one |
| RefCounts.OverlappingCompactions | sstable/sstable_list.go:165-174 | a run of two overlapping compactions closes and removes a file that a thread holds |
| TableLists.SSTableList.GetTables | sstable/sstable_list.go:96-109 | every listed file, each with one more reference |
| TableLists.SSTableList.Add | sstable/sstable_list.go:111-131 | the list stays in descending order of generation and gains exactly the file |
| TableLists.SSTableList.ReplaceTables | sstable/sstable_list.go:133-177 | the list loses exactly the old files and gains the new one; each old file is unlinked and loses one reference |
| TableLists.SSTableList.Load | sstable/sstable_list.go:193-231 | lists exactly the files found and resumes the generations after the highest |
| TableLists.SSTableList.Close | sstable/sstable_list.go:179-191 | each file is marked closed and loses one reference; no file is removed |
| Wisps.CreateWisp | wisp.go:299-338 | an empty database in the initial state of the engine: one empty segment, no tables, the checksum and segment size given, 4 MiB where none is |
| Wisps.ReopenWisp | wisp.go:299-338 | opening what a crash leaves, in whatever state and at whichever byte, gives a database in the engine's reopened state over the same files |
| Wisps.Wisp.Insert | wisp.go:340-364 | the history grows by exactly the write, whatever is flushed on the way; the write is the last in the mutable memtable, which keeps its other writes unless it was full, and no immutable memtable is left |
| Wisps.Wisp.Delete | wisp.go:366-390 | likewise by a tombstone |
| Wisps.Wisp.PrepareMutable | wisp.go:392-409 | with room nothing changes; a full memtable becomes the immutable one and an empty one takes its place, any earlier immutable one being flushed |
| Wisps.Wisp.FreezeMutable | wisp.go:415-431 | the mutable memtable becomes the immutable one, its segments are sealed, and an empty one is installed |
| Wisps.Wisp.Get | wisp.go:433-478 | the value that the history leaves under the key; `deleted` implies that the last write to the key was a delete, and the first of mutable memtable, immutable memtable and tables in list order that holds the key decides |
| WrittenKeys.FoundWasWritten | wisp.go:433-478 | in every reachable state what a lookup finds under a key, tombstones included, was written under that key |
| Wisps.Wisp.Compact | wisp.go:480-483 | at most one table is left, with the newest entry of every key unless that is a tombstone; the old readers are closed, their files removed, and the history is unchanged |
| Wisps.Wisp.Recover | wisp.go:485-505 | the mutable memtable holds the fold of every record in the log; it fails exactly when the log cannot be read back, as with a wrong checksum |
| Wisps.Wisp.Flush | wisp.go:507-527 | what is flushed in each of the three cases, and that nothing is lost or changed |
| Wisps.Wisp.FlushImmutable | wisp.go:529-600 | a table of the next generation with what the immutable memtable holds joins the list and exactly the segments up to the sealed one go, or nothing happens if it has been flushed already |
| Wisps.Wisp.Close | wisp.go:612-638 | what has not been flushed stays in the log, no file is removed, and the log is closed: nothing of the history is lost |
| Wisps.Wisp.SnapshotForScan | wisp.go:87-108 | the mutable memtable ends up empty, and the immutable one and all tables are taken |
| Wisps.Wisp.ScanToEnd | wisp.go:110-163 | exactly the values that the history leaves in the series and the time range, ascending |
| Sessions.Restart | wisp.go:299-338 | what any open database has on disk between two operations opens again with the same history |
| Sessions.Run | wisp.go:299-638 | from an empty directory, any script of writes, flushes, compactions, clean restarts and crashes leaves exactly its writes as the history |
| Sessions.RunThenGet | wisp.go:433-478 | after any such script a lookup finds the value of the last write to the key, and of a deleted key none |
| Sessions.RunThenScan | wisp.go:110-163 | after any such script a scan yields exactly the values that its writes leave in the series and the time range, by ascending timestamp |
| Sessions.DeleteThenGet | wisp.go:443-446 | a lookup after a delete reports the key as deleted |
| Sessions.CrashDuringWrite | wisp.go:485-505 | after a crash that lets any number of bytes of a record reach the disk the next process finds all earlier writes, and this one if and only if all its bytes are there |

## Left out

- File I/O, fsync failures, directory scanning and file names: a file is a byte sequence, a directory a map from id to
  bytes, and I/O error returns are not taken.
- snappy, murmur3 and CRC32: arbitrary functions. Snappy is assumed to be inverted by its decoder and, in `SSTables`, to
  keep its documented size bound. A checksum that differs is refused; nothing is claimed about how much damage makes it
  differ.
- `NewBloomFilter`'s floating-point sizing and the false-positive rate: the numbers of bits and of hashes are arbitrary and
  positive.
- The random draw of a node's level: any level in range.
- `sync.Pool` buffers, adoption of a single-file log from before segmentation, `WAL.Reset`, configuration defaults other
  than those of the memtable's threshold and the segment size, and `compactor/read.go`.
- Half-written `.sst` files, on which `Load` fails: a table file appears on disk as a whole.
- The data race between lookups in the mutable memtable and inserts into its skiplist: each is one atomic step.
- Progress under concurrency of the loops that release the lock; `Wisps.Wisp.PrepareMutable` ends when one thread runs.
- Wisps.Wisp.Get: one thread at a time; lookups that interleave with other operations are `EngineTheorems.GetLinearizable`.
- Wisps.Wisp.Insert: asks that the threshold plus the weight of the write stays within 2^64; beyond it the memtable's size
  wraps around.
- Wisps.Wisp.FlushImmutable: the file in the list stands for the entries its reader serves, not for bytes; that lookup and
  iteration over the bytes agree with the entries is `SSTables.StoreAndGet` and `SSTables.StoreAndIterate`.
- Wisps.ReopenWisp: asks that the log's records fit the replay limit, that their weights sum to less than 2^64 and that
  tombstones carry no value, as `Delete` writes them.
- SSTableReader.Reader.Get: asks that the index ascends and the filter holds the bits it claims to, as in every file the
  writer closed; the code indexes the bits without a check.
- Wisps.Wisp.Recover: asks that the records that are read back fit one memtable without wrapping its size and that
  tombstones carry no value.
- Sessions.Run: asks that the log of all writes can be read back into one memtable, and, like `Insert`, that sizes stay
  within 2^64; its crashes are between operations, `Sessions.CrashDuringWrite` has those within one.
- SSTables.StoreAndGet: asks that the sizes of block and entries keep the uint32 sums and offsets from wrapping.
- SSTableWriter.Writer.Add: asks that an entry is no larger than the bound the writer was created with, and that the bound
  plus the larger of it and the block size is below 2^32.
- MergeHeaps.MergeHeap.Pop: `container/heap` is its contract, a set of items of which the least is taken.
- TableLists.SSTableList.Add: `sort.Slice` is an insertion sort; the result is the same, as generations differ.
- RefCounts.CountIsExact: a thread that both holds a reference and takes the file off the list counts as two threads.

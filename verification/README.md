# PedroDB: a verified model

PedroDB is a log-structured key-value store. Every Put and Delete appends a record to the active
data file, an in-memory index maps each key to the location of its newest record, opening the store
replays the files to rebuild the index, and compaction copies the live records of an old file to the
end of the log and removes the file. This project models these parts and the caches that serve reads,
and proves that together they behave like a map from keys to values, over every run, and through
crashes, reopenings, compactions and interleaved writers. Where the code does not keep that promise,
a concrete run shows it, and the condition under which it does is proved: an exact one for compaction,
of sealed files and of the active one, for reopening, for reads through the block cache, for the
compaction queue, for the length of keys, and for a write that races a copy or another write.

Check everything with `dafny verify dfyconfig.toml` (Dafny 4.11).

## How it is built

The history in the data files is a *log*: a map from file id to the sequence of records packed in the
file. `Log.Replayed` says which index a log stands for, without saying how to compute it: each key
whose newest record is a Set, at that record. `Accounting`, `Store`, `Compaction` and `Recovery` hold
what each operation does to the log and the memory, branch by branch, as functions, and the lemmas
about them. `Runs`, `Sweeping` and `CacheRuns` reason about whole runs of them. Below them,
`RecordFormat`, `RecordScan` and `IndexFormat` tie logs to bytes.

The code that works in place is modelled in place: `DBImpl`, `FileManager`, `MappedFile`,
`WritableBuffer`, `RecordIterator`, `IndexIterator`, `MetadataManager`, `ReadCache`, `SegmentCache`
and `LRUCache` are classes over fields, arrays and heap nodes, with the source's loops. Each of their
methods is proved to make exactly the step that the functions say, so the lemmas about runs hold of
them. `Interleaving` splits the operations into their critical sections, over positions instead of
locations; `Simulation` says that its steps are those of the code, in any order, and
`Overlapping` and `TwoWriters` say what happens where it forbids two operations to overlap.

| file | contents |
|---|---|
| Basics, Buffers | integers as bytes, byte buffers, a window of a mapped file |
| RecordFormat, RecordScan, IndexFormat | records, packed files, the two scanners, the index log |
| Log, Accounting, Store, Compaction, Recovery | the store as a state machine, and its invariants |
| Runs, Sweeping | whole runs, and the compaction of a queue of files |
| Interleaving, Simulation, Overlapping, TwoWriters | writers, readers and compactions in separate critical sections |
| MappedFiles, Metadata, Files, Database | the imperative store |
| Lru, Segments, Blocks, BlockCache, CacheRuns | the block cache, and its runs |
| Limits | concrete runs in which the store falls short of a map |

What the statements rest on:

- A record may end exactly at the last byte of its file: `Allocate` permits it, but `RecordIterator`
  cannot see it. `Seen` is what a scan sees; `Blind` says when that matters to a compaction, and
  `Harmless` when it does not matter to a reopen.
- Compaction drops tombstones. `Resurrects(log, f)` says that file f holds the newest record of a
  deleted key and that a Set of the key survives elsewhere.
- `UpdateUnused` queues the active file like any other (`Limits.ActiveFileIsQueued`). Its compaction
  appends copies behind its own scan, until one does not fit and the next file becomes active; the
  statements about `Compact` cover it. `Safe` says exactly when a compaction of a file, sealed or
  active, loses nothing.
- Blocks are cached for good, so a block of the active file may lack what is appended in it later. The
  bypass in `HandleGet` compares with `max_file_`, which a compaction does not advance. `Behind` says
  when that makes a Get fail.
- Keys have at most 255 bytes: the length field has one byte. The repository's README shows other
  field widths and another order; the code decides here.
- `uncharged` counts, per file, the bytes of tombstones that removed a key since the store was
  opened: `HandlePut` charges them to no one, recovery charges them.
- Values are compressed by a pair of functions of which only `uncompress(compress(v)) == v` is
  assumed; the checksum is any function of key and value. Both, the compaction threshold and the
  compression option are fields of `Env`. The hash of the cache segments is a parameter.

## Model

| member | source | states |
|---|---|---|
| Runs.GetAfterRun | src/db_impl.cc:246-404 | After every allowed run of a new database (puts, deletes, rollovers, compactions, polls, index files, and in durable runs reopenings) the index has exactly the keys of the map that the puts and deletes alone make, and Get through index, bytes, decoder and checksum returns that map's value on both read paths; the direct path reports corruption exactly for a record that ends at the end of its file. Runs that never reopen may drop any tombstone |
| Runs.RunRefinesMap | src/db_impl.cc:169-458 | From any state that satisfies the invariant, every allowed run keeps it, and the store's contents are what the puts and deletes make of a map; in runs that reopen, the files go on replaying to the index |
| Runs.StepRefinesMap | src/db_impl.cc:169-458 | The same for one operation of any kind |
| Runs.IdsAreNotReused | src/file_manager.cc:13-24 | The id of a removed file is never handed out again, in any run and across reopenings |
| Interleaving.InterleavedRun | src/db_impl.cc:187-321 | With append and publish of a write, and check, append and publish of a compaction's copy, as separate steps, on sealed files and on files that are still written to: over every run in which operations on one key do not overlap and no scan ends that has to miss something (its file still written to, or full with a last record that is needed), a reader finds the map of the published writes, whatever files are removed and tombstones dropped |
| Interleaving.CrashInRun | src/db_impl.cc:187-321 | Over every such run in which a removed file hides nothing, a crash at any point replays to that map with the writes that had reached the files done |
| Interleaving.RunFromRest | src/db_impl.cc:187-321 | In particular every run from a store at rest in which operations on one key do not overlap and compactions are started on sealed files that are not full: a reader finds the map of the published writes |
| Interleaving.ApartIsClean | src/db_impl.cc:169-187 | What has to hold at the end of a scan follows from what can be checked when the compaction is started: the file is sealed and not full |
| Interleaving.RunKeeps | src/db_impl.cc:187-321 | Every such run keeps the invariant of the index and that of the files |
| Interleaving.RunKeepsMem | src/db_impl.cc:187-321 | Every such run keeps the invariant of the index, whatever the files would replay to, and nothing needs a file whose scan has ended |
| Interleaving.CleanIsOrderly | src/db_impl.cc:187-241 | In every such run, whatever comes between the end of a scan and the removal, nothing needs a file when it is removed |
| Interleaving.RemovedIsUnneeded | src/db_impl.cc:235-241 | When a compaction in such a run removes its file, no index entry points into it, nothing in flight lies in it, and the invariant survives |
| Interleaving.OrderlyRunKeepsMem | src/db_impl.cc:187-321 | The invariant of the index also survives every run in which operations on one key do not overlap and nothing needs a file when it is removed |
| Interleaving.GetInTwoSteps | src/db_impl.cc:343-363 | In every such run a Get that looks its key up, lets any other steps happen and then opens the file fails exactly if the file was removed in between, and else returns the value at the lookup |
| Overlapping.GetLosesItsFile | src/db_impl.cc:343-363 | A concrete run without overlaps in which that happens to a key that is there all the time |
| Interleaving.StepKeepsMem | src/db_impl.cc:187-321 | Each of the eight kinds of steps keeps the invariant of the index, if it overlaps no operation on its key and removes no file that is needed |
| Interleaving.StepKeepsDisk | src/db_impl.cc:187-321 | Each of them keeps what the files replay to, a removal when no tombstone of the file still hides a Set |
| Interleaving.RemoveFileMem | src/db_impl.cc:235-241 | When a compaction that ran among other writers removes its file, the invariant survives if and only if nothing needs the file: appends, index entries, unpublished Sets and unpublished copies go elsewhere |
| Interleaving.EndScanIs | src/db_impl.cc:187-234 | When a scan has come to its end amid other operations, all that it has passed is needed no more: something needs the file if and only if it is still written to, or its last record ends at the end of the file and is needed |
| Interleaving.EndThenRemove | src/db_impl.cc:187-241 | A scan that ends and the removal of its file at once keep the invariant if and only if neither is the case |
| Interleaving.RemoveFileDisk | src/db_impl.cc:235-241 | The removal keeps what the files replay to if and only if no tombstone in the file hides a Set elsewhere |
| Interleaving.AtRestInv | src/db_impl.cc:327-338 | Every store at rest, with the index its files replay to, satisfies both invariants |
| Simulation.WriteIsPut | src/db_impl.cc:273-314 | The append and the publish of a write, taken one after the other, do to files and index what a Put does |
| Simulation.RoundIsCopyStep | src/db_impl.cc:188-233 | The steps of a compaction for one record, taken one after the other, do what an iteration of its loop does |
| Simulation.RemoveIsDrop | src/db_impl.cc:236-241 | The removal step does what the end of a compaction does |
| Simulation.CompactIsRun | src/db_impl.cc:169-244 | A whole safe compaction, of a sealed file or of the active one, is such a run of steps: start, one round per record that the scan sees, end of the scan, removal |
| Simulation.PublishCopyIsCode | src/db_impl.cc:216-233 | In any state in which a copy has been appended, wherever the key points by then, the publish step of the interleaved model leaves the index that the code's leaves |
| Simulation.CheckIsCode | src/db_impl.cc:196-207 | The check of a record finds it live exactly if the code's index points to it |
| Simulation.StepIsCode | src/db_impl.cc:169-321 | In any state, overlaps included, every step of the interleaved model that removes no needed file does to files and index what the code does in that critical section |
| Simulation.CleanRunOfCode | src/db_impl.cc:169-321 | So over every clean interleaving of the code's critical sections a reader finds the map of the published writes |
| Simulation.RaceOfCode | src/db_impl.cc:196-233 | And in every order of one copy and one write of the same key, the code's index and what its files replay to end up with the value that the race of the interleaved model gives |
| Simulation.SameContents | src/db_impl.cc:340-404 | The map of the interleaved model is the contents of the store |
| Overlapping.OverlapLosesUpdate | src/db_impl.cc:196-233 | A concrete run in which a Put comes between a compaction's check and its publish: the published update is lost, in memory and on disk |
| CacheRuns.CachedGetInRun | src/db_impl.cc:352-404 | Over every run, in which anything is written, compacted, reopened, and read through the cache, active files included: a Get through the cache of a key that the map has fails if and only if the block where its record starts is cached and holds unwritten space there, and else returns the value that the puts and deletes alone leave |
| CacheRuns.CachedGetIs | src/db_impl.cc:385-403 | The same for one state: blocks of the record behind its first never matter |
| CacheRuns.GetInSession | src/db_impl.cc:340-404 | What every Get of every session returns, compactions of any kind included: NotFound for a key that the map does not have; corruption exactly for a record that ends at the end of its file, if the caller or the options do not use the cache or the file is the newest that a Put has reached, and otherwise exactly for one whose first block is behind; and else the map's value |
| CacheRuns.BypassSuffices | src/db_impl.cc:340-404 | What the test against the newest file is for: over every session of Puts, Deletes, Gets with and without the cache, polls, reopenings, and compactions that make no other file active, every Get returns what the Puts and Deletes alone leave, and only a record that ends at the end of its file may read as corrupt |
| CacheRuns.CleanAnswer | src/db_impl.cc:352-376 | As long as the newest file that a Put has reached is the active one and the cache is clean, a Get keeps it clean, and fails only for a record that ends at the end of its file |
| Overlapping.RaceOutcome | src/db_impl.cc:196-233 | For one copy and one write of the same key, in every order in which the copy is made: replaying the files gives the old value back exactly if the write was appended before the copy, and the index does exactly if it was also published before the copy and is not a delete |
| TwoWriters.TwoWrites | src/db_impl.cc:273-314 | Two writes of one key, appended one after the other and published in either order: the reader sees the one published last, the files replay to the one appended last, and the two agree if and only if the orders do or both are Deletes |
| CacheRuns.CacheIsTransparent | src/db_impl.cc:352-404 | In particular the cache is transparent, for files of any kind, in every run of allowed operations (compactions that are safe, and in runs that reopen, resurrect nothing; reopenings that are harmless) whose earlier cached reads were all of sealed files: the cached read returns the map's value, as the direct read does, which only misses a record that ends at the end of its file |
| CacheRuns.AccessKeeps | src/db_impl.cc:352-404 | Every operation of the store and every cached read of any file keeps each cached block what its file held when the block was read, and the store's invariant; a read of a sealed file keeps a clean cache clean |
| CacheRuns.FetchKeeps | src/db_impl.cc:352-404 | A Get through the cache caches blocks as their file is now, up to its last record |
| CacheRuns.BlocksStay | include/pedrodb/cache/read_cache.h:97-120 | A read of a record through a cache with room leaves all blocks of the record cached, and those that were cached before as they are |
| CacheRuns.StaleBlock | src/db_impl.cc:352-376 | In any state in which the block where the next record goes is cached, a Put into it succeeds, and a Get of its key through the cache fails |
| Limits.CachedGetFails | src/db_impl.cc:352-376 | A concrete run that gets there: a compaction rolls over, a Get caches a block of the new active file, a second compaction appends in it, and a Get of the appended key fails; both Gets go past the bypass, and the map has the key |
| CacheRuns.CompactLagsBehind | src/db_impl.cc:204-208 | A compaction never advances the file that Get bypasses, so after a rollover of its own the active file is not bypassed |
| CacheRuns.PutCatchesUp | src/db_impl.cc:274-276 | After every Put that fits, the bypassed file is the active one |
| Limits.FullFileIsLost | include/pedrodb/iterator/record_iterator.h:26-37 | A Put of a record that fills its file succeeds, a direct Get of it then fails, and after a reopen the store is empty |
| Limits.FullFileUndeletes | include/pedrodb/iterator/record_iterator.h:26-37 | A Delete whose tombstone fills its file succeeds, no live record is invisible to a scan, and after a reopen the deleted key is back |
| Limits.LongKeyIsLost | include/pedrodb/format/record_format.h:111-127 | A Put of a key of more than 255 bytes succeeds and is indexed, but no decoder and no scan ever finds the key in the file |
| Limits.DeletedKeyReturns | src/db_impl.cc:191-193 | A concrete store in which compacting the file of a tombstone before the file of the key it deletes brings the key back at the next reopen |
| Limits.ActiveFileIsQueued | src/db_impl.cc:23-32 | Overwriting a key in a new database queues the active file for compaction as soon as the dead record reaches the threshold |
| Limits.DeadActiveFileIsDropped | src/db_impl.cc:169-244 | Compacting the active file while none of its records is live copies nothing, so that no rollover happens, and removes the file that appends go to |
| Limits.ActiveFileIsDropped | src/db_impl.cc:109-120 | A Put and a Delete in a new database get there: the active file is queued, and its compaction leaves no file |
| Limits.LiveActiveFileIsDropped | src/db_impl.cc:169-244 | A live record does not prevent that: after two Puts of one key whose record size divides the size of a file, the copies of the live record fill the active file exactly, the scan misses the last one, and the file is removed with the index pointing into it |
| Limits.QueuedExactly | src/db_impl.cc:23-32 | A file whose compaction has not been scheduled, active or not, is queued if and only if its free bytes have reached a positive threshold |
| Log.AppendedReplayed | src/db_impl.cc:246-321 | Appending a record changes the index that the log stands for at its own key only: a Set moves the key there, a Delete drops it |
| Log.RemovedReplayed | src/db_impl.cc:236-241 | Removing a file that holds no live record keeps the replayed index if and only if no tombstone in it hides a Set in another file |
| Log.ReplayAfterDrop | src/db_impl.cc:187-241 | Moving records of keys in the index and removing any set of files keeps the replayed index if and only if no tombstone in the removed files is the newest record of a key with a Set in a file that stays |
| Log.OldestNeverResurrects | src/db_impl.cc:236-241 | The oldest file hides nothing |
| Log.CopyKeepsResurrects | src/db_impl.cc:209-214 | Appending a live record again does not change which files hide a deleted key |
| Accounting.ChargeEffect | src/db_impl.cc:23-32 | Charging adds the bytes to one file and changes no other file's state or the index, and keeps the queue exact: its files are those in state queued, once each and past the threshold, and an idle file is below the threshold |
| Accounting.SupersedeKeeps | src/db_impl.cc:302-308 | Charging a key's record and dropping the key keeps soundness, the queue and the byte balance of every file |
| Accounting.PublishEffect | src/db_impl.cc:274-314 | The index update of a write changes its own key only, and the status is NotFound exactly for a delete of an absent key |
| Accounting.PublishCharges | src/db_impl.cc:274-314 | HandlePut charges the bytes of the superseded record to that record's file, those of a tombstone for an absent key to the tombstone's, and nothing else |
| Accounting.PublishKeeps | src/db_impl.cc:274-314 | It keeps: every index entry names a Set of its key with its size, the queue is exact, and for every file not being compacted bytes written = free + live + tombstones not yet charged |
| Accounting.RecoverEffect | src/db_impl.cc:406-458 | Replaying a record behind all others never takes the branches for a newer or equal location in the index, and changes its own key only |
| Accounting.RecoverCases | src/db_impl.cc:406-458 | Replaying a record in every memory: below its key's entry the index stays and the record's bytes are charged; otherwise the entry is superseded and its bytes charged, with the tombstone's own |
| Accounting.RecoverKeeps | src/db_impl.cc:406-458 | Replaying a record keeps the same invariants with nothing left uncharged, and all index entries lie below the next location |
| Accounting.CopyKeeps | src/db_impl.cc:216-233 | Moving a live record out of the file being compacted keeps them for all other files |
| Accounting.PublishCopyCases | src/db_impl.cc:216-233 | The publish of a copy in every memory: a deleted key stays absent; an entry at or above the copy stays, and the copy's bytes are added to the free bytes of its own file alone; an entry below moves to the copy, and nothing else changes |
| Accounting.ForgetKeeps | src/db_impl.cc:236-241 | Erasing the state of a compacted file that nothing points into keeps them |
| Accounting.LiveBytesDrop | src/db_impl.cc:302-308 | Dropping a key takes exactly its own record out of the live bytes of its file |
| Store.AppendIncreases | include/pedrodb/file_manager.h:51-90 | The location an Append returns is above that of every record already in the log |
| Store.AppendFiles | include/pedrodb/file_manager.h:51-90 | A storable record always fits, in the active file or after one rollover in a new one, and no file outgrows its size |
| Store.PutEffect | src/db_impl.cc:246-321 | What a Put or Delete of a record that fits does to the log, the index, the queue and the status |
| Store.PutWrites | src/db_impl.cc:246-314 | What a Put writes: the value, compressed if the option is set, with the checksum of key and stored value, the type and no timestamp, as the last record of the active file; it is refused exactly if header, key and stored value exceed the file size, and the index entry has their sum as its size |
| Store.ViewIs | src/db_impl.cc:378-383 | What a reader sees of a key is the value of its record, uncompressed if the option is set |
| Store.PutKeepsInv | src/db_impl.cc:246-321 | A Put or Delete keeps the store's invariant |
| Store.PutUpdatesView | src/db_impl.cc:246-321 | A Put stores its value, a Put of the empty value removes the key, the status tells whether it was there, and a record above the file size changes nothing and is refused |
| Store.PutKeepsDurable | src/db_impl.cc:246-321 | After a Put the files replay to the index it leaves |
| Compaction.CopyStepKeeps | src/db_impl.cc:188-233 | One iteration of a compaction keeps the invariant |
| Compaction.CopyStepView | src/db_impl.cc:188-233 | One iteration changes no value that a reader sees |
| Compaction.CopyUpToKeeps | src/db_impl.cc:188-233 | After any number of iterations, in a sealed file or in the active one, which the copies make longer, exactly the keys whose records were passed have moved, to greater locations behind the scan, with the same size, and every value is the same |
| Compaction.CopyUpToDurable | src/db_impl.cc:188-233 | After any number of iterations the files still replay to the index |
| Compaction.CrashDuringCompact | src/db_impl.cc:187-233 | A crash after any number of iterations replays to the map from before the compaction |
| Compaction.CompactMoves | src/db_impl.cc:187-241 | A compaction moves every key out of its file to a strictly greater location, except one whose record ends at the end of the file, and moves no other key |
| Compaction.CompactKeepsInv | src/db_impl.cc:169-244 | It keeps the store's invariant if and only if it is safe, which a caller can check: no live record of the file ends at its end; and if the file is the active one, some record in it is live, and appending its live records round and round as long as they fit does not fill it exactly |
| Compaction.CompactKeepsInvIf | src/db_impl.cc:169-244 | The same in terms of the state at the end of the scan: the file was sealed or held something live, and no live record is left in it |
| Compaction.BlindAfter | src/db_impl.cc:187-234 | What the scan leaves unseen was unseen before, or is a copy that fills the active file, which happens exactly if its live records, taken round and round, fill the free space |
| Compaction.CompactKeepsView | src/db_impl.cc:169-244 | A safe compaction changes nothing a reader sees |
| Compaction.CompactKeepsDurable | src/db_impl.cc:169-244 | A safe compaction leaves files that replay to the index if and only if no tombstone in the file hides a Set in another file |
| Compaction.CompactOldest | src/db_impl.cc:169-244 | So a safe compaction of the oldest file always does |
| Sweeping.SweepKeeps | src/db_impl.cc:114-117 | Compacting files in ascending order, each safe when its turn comes, changes nothing a reader sees, and removes exactly these files of the old ones |
| Sweeping.SweepKeepsDurable | src/db_impl.cc:114-117 | After any number of them the files replay to the index if and only if no tombstone in the files compacted so far hides a Set in a file that is still there |
| Sweeping.LowestResurrectNothing | src/db_impl.cc:114-117 | So they do when no file below a compacted one stays |
| Sweeping.CrashDuringSweep | src/db_impl.cc:114-117 | When the lowest files of the store are compacted in ascending order, a crash after any number of them replays to the map |
| Sweeping.SealedSafe | src/db_impl.cc:114-117 | Sealed files are safe when their turn comes if and only if none of them holds a live record that ends at the end of its file when the sweep starts |
| Sweeping.SweepableIs | src/db_impl.cc:109-120 | When a queue can be compacted: if and only if no sealed file in it holds a live record that ends at the end of its file, and the active file, if it is in it, is safe once the others are gone |
| Sweeping.SealedSweepable | src/db_impl.cc:109-120 | A queue without the active file can be compacted if and only if no file in it holds a live record that ends at the end of its file |
| Sweeping.CompactKeepsBlind | src/db_impl.cc:187-233 | A compaction neither hides another sealed file's records from its scan nor reveals any |
| Sweeping.PolledReady | src/db_impl.cc:100-107 | Polling the queue leaves its files ready to be compacted in order |
| Recovery.RecoverAllRebuilt | src/db_impl.cc:327-338 | Replaying files in ascending id and records in ascending offset rebuilds exactly the index the log stands for, with every byte live or charged and the queue exact |
| Recovery.PartReplays | src/db_impl.cc:150-160 | Replaying only a part of a log's records gives the log's index if and only if every live record is in the part, and every tombstone that hides a Set |
| Recovery.ReopenKeepsInv | src/db_impl.cc:34-50 | Opening any files builds a memory that satisfies the invariant |
| Recovery.ReopenKeepsView | src/db_impl.cc:34-50 | Reopening a store whose files replay to its index gives back the same index if and only if recovery sees every live record and every tombstone that hides a Set; then the map is the same; and no byte is uncharged if and only if recovery sees every record |
| Recovery.AllSeenIsHarmless | src/db_impl.cc:140-164 | Recovery does so when no file without an index file is full |
| Recovery.ReopenLosesUnseen | src/db_impl.cc:150-160 | In particular, a live record that fills a file without an index file is not recovered |
| Recovery.IndexFilesAgree | src/db_impl.cc:140-164 | Recovering files from their index files or from their data reads the same records, and rebuilds the same memory, exactly up to files filled to the last byte |
| Runs.IndexFileShowsAll | src/db_impl.cc:140-148 | With its index file recovery sees all records of a file, also one that ends at the end of the file, and the others as before |
| Runs.GetReturnsView | src/db_impl.cc:340-404 | Under the invariant both read paths return the map's value for a key, except that the direct path fails exactly for a record that ends at the end of its file |
| Runs.ReadsCheck | src/db_impl.cc:364-403 | Both read paths report corruption for bytes that do not decode or whose checksum is not that of their key and stored value, and return the value, uncompressed if the option is set, for all others |
| Runs.PollKeepsMem | src/db_impl.cc:100-107 | Polling keeps soundness, the exact queue and the byte balance |
| Store.PolledIs | src/db_impl.cc:100-107 | Polling marks exactly the files of the queue as scheduled; every other file keeps its state, and no file's free bytes change |
| Runs.MarkedWasPolled | src/db_impl.cc:100-107 | Over every run from a store in which a file is not scheduled or being compacted: if it is so in the end, a poll has found it in the queue, and no reopen has come after |
| Runs.OpenedUnmarked | src/db_impl.cc:406-458 | No file of a new or a reopened store is scheduled or being compacted |
| Runs.QueuedInRun | src/db_impl.cc:23-32 | So in every run from a new or a reopened store every file that no poll has found in the queue is queued exactly when its free bytes have reached the threshold |
| Runs.PolledStaysOut | src/db_impl.cc:23-32 | In every run after a poll, a polled file stays scheduled and out of the queue, whatever is written, compacted or polled, up to its own compaction or a reopen |
| Runs.RunKeepsOut | src/db_impl.cc:23-32 | The same from any state in which a file is scheduled or being compacted, and not queued |
| Runs.CreatedIsEmpty | src/file_manager.cc:13-21 | A new database satisfies the invariant, is the empty map, and is so on disk |
| RecordFormat.RoundTrip | include/pedrodb/format/record_format.h:89-127 | Decoding a packed record followed by any bytes gives the record back and consumes exactly its size if and only if the key has at most 255 bytes |
| RecordFormat.RecordLayout | include/pedrodb/format/record_format.h:51-127 | Every byte of a packed record at its literal offset |
| RecordFormat.ImageAt | include/pedrodb/format/record_format.h:89-127 | In a packed file the bytes at each record's offset decode to that record |
| RecordFormat.ImageEnd | include/pedrodb/format/record_format.h:30-49 | Behind the last record nothing decodes |
| RecordFormat.ImageAppend | include/pedrodb/file/mapping_readwrite_file.h:87-95 | Writing a record behind the last one turns the file of the records into the file of the longer list |
| RecordFormat.DecodeImage | src/file_manager.cc:84-94 | Decoding a packed file from the front until decoding fails gives exactly its records |
| RecordFormat.OffsetMonotone | include/pedrodb/format/record_format.h:85-87 | Records tile the file: each ends at or before the next begins |
| RecordScan.ScanImage | include/pedrodb/iterator/record_iterator.h:43-87 | A scan from any record's offset yields exactly the records from there on, up to one that ends at the end of the file |
| RecordScan.ScanMeetsDecode | include/pedrodb/iterator/record_iterator.h:26-37 | The scanner and the rebuild loop of CreateFile agree on a file if and only if it is not full |
| RecordScan.VisibleInParts | include/pedrodb/iterator/record_iterator.h:43-72 | Reading the header and then the payload decodes what decoding at once would, given the strict bound of fetch |
| RecordScan.RecordIterator.Fetch | include/pedrodb/iterator/record_iterator.h:26-37 | Reads the next bytes into the buffer, or nothing if they would reach the end of the file |
| RecordScan.RecordIterator.Valid | include/pedrodb/iterator/record_iterator.h:43-72 | True exactly if a record decodes at the offset and ends before the end of the file, and then holds that record |
| RecordScan.RecordIterator.Seek | include/pedrodb/iterator/record_iterator.h:74-78 | Moves to an offset and drops the buffered bytes |
| RecordScan.RecordIterator.Next | include/pedrodb/iterator/record_iterator.h:84-87 | Returns the record and advances by its size |
| IndexFormat.IndexRoundTrip | include/pedrodb/format/index_format.h:30-61 | Decoding a packed index entry followed by any bytes gives it back and consumes exactly its size if and only if the key has at most 255 bytes |
| IndexFormat.IndexLayout | include/pedrodb/format/index_format.h:30-38 | Every byte of a packed index entry at its literal offset |
| IndexFormat.IndexImageAppend | include/pedrodb/file_manager.h:69-75 | Appending a record appends exactly its entry to the index log of the file |
| IndexFormat.IndexFromFront | include/pedrodb/iterator/index_iterator.h:23-25 | At the front of what is left of an index log is exactly the next record's entry, and nothing at its end |
| IndexFormat.IndexIterator.Valid | include/pedrodb/iterator/index_iterator.h:23-23 | Decodes the entry at the front and consumes it, or fails and consumes nothing |
| IndexFormat.PackIndexInto | include/pedrodb/format/index_format.h:30-38 | Appends exactly the packed entry |
| MappedFiles.MappedFile.Allocate | include/pedrodb/file/mapping_readwrite_file.h:87-95 | Gives the next bytes of the file exactly if enough remain, up to and including the last byte |
| MappedFiles.PackInto | include/pedrodb/format/record_format.h:111-127 | Writes exactly the packed record into the window, or nothing if it does not fit |
| MappedFiles.UnPackHeaderFrom | include/pedrodb/format/record_format.h:30-49 | Decodes a header and consumes it, or consumes nothing |
| MappedFiles.UnPackFrom | include/pedrodb/format/record_format.h:89-109 | Decodes a record from the front of a buffer and consumes exactly its bytes |
| Buffers.WritableBuffer.Append | include/pedrodb/file/mapping_readwrite_file.h:87-95 | Writes the bytes at the write position and leaves every other byte of the file as it was |
| Metadata.ReplayAppend | src/metadata_manager.cc:21-32 | Appending a log entry changes what the metadata file replays to by exactly that entry |
| Metadata.MetadataLayout | include/pedrodb/format/metadata_format.h:36-75 | Every byte of the metadata header and of its two kinds of entries at its literal offset |
| Metadata.LogReplays | src/metadata_manager.cc:78-119 | After any sequence of CreateFile and DeleteFile calls the file replays, in ascending order, to exactly the ids whose last call created them |
| Metadata.MetadataManager.Init | src/metadata_manager.cc:48-76 | Opens a metadata file or creates one; fails exactly on a file that does not decode, and else memory and file agree |
| Metadata.MetadataManager.Recovery | src/metadata_manager.cc:13-34 | The replay loop computes the name and the files that the bytes stand for, and fails exactly on bytes that do not decode |
| Metadata.MetadataManager.CreateFile | src/metadata_manager.cc:78-97 | Adds the id and one log entry, or nothing if the id is present; memory and file agree |
| Metadata.MetadataManager.DeleteFile | src/metadata_manager.cc:99-119 | Removes the id and adds one log entry, or nothing if the id is absent; memory and file agree |
| Files.RebuildIndexLog | src/file_manager.cc:79-94 | The rebuild loop finds the end of the last record and builds the index log of the file's records |
| Files.OpenForAppend | src/file_manager.cc:73-99 | An opened file has its write position behind its last record and the index log that appending its records had built |
| Files.FileManager.OpenNext | src/file_manager.cc:73-99 | The next file opens as an empty one, also where a crash has left it behind |
| Files.PackRecord | include/pedrodb/file_manager.h:60-64 | Packs the record at the write position of the active file, or leaves the file as it was if it does not fit |
| Files.FileManager.constructor | src/file_manager.cc:13-24 | Opening a disk restores the records of every file, the active file's write position and its index log; without any registered file the one empty file 1 is created |
| Files.FileManager.CreateFile | src/file_manager.cc:57-106 | A rollover seals the active file, leaves its index file to be written, and makes an empty file active; sealed files keep their bytes, and the disk is the one behind the last crash point of a rollover |
| Files.FileManager.TryAppend | include/pedrodb/file_manager.h:60-77 | One round packs the record behind the last one and logs it, exactly if it fits |
| Files.FileManager.Append | include/pedrodb/file_manager.h:51-90 | Appends the record to the active file or, after at most one rollover, to a new one, and returns its location; a rollover leaves the index of exactly the sealed file's records to be written; all other files keep their bytes |
| Files.FileManager.WriteIndexFile | src/file_manager.cc:38-55 | Writes the index log of a sealed file as its index file, which mirrors the data file |
| Files.FileManager.RemoveFile | src/file_manager.cc:142-155 | The data file and the index file of the id can no longer be opened, its metadata entry is gone, every other file has the bytes it had, and the disk is the one behind the last crash point of a removal; the manager stays valid if and only if the file is not the active one |
| Files.FileManager.OnDisk | src/file_manager.cc:57-106 | What a crash between two operations leaves on disk holds the same records |
| Files.CrashInRollover | src/file_manager.cc:73-103 | A crash inside a rollover, before or after the new file is registered, leaves a disk that holds the old files, or the old and the new one |
| Files.CrashInRemove | src/file_manager.cc:142-155 | A crash inside the removal of a file, at any point behind its metadata entry, leaves a disk that holds the remaining files |
| Files.CrashInFirstStart | src/file_manager.cc:13-21 | A crash inside the first start leaves a disk that starts as a new database, or holds the one empty file |
| Files.FileManager.AcquireDataFile | src/file_manager.cc:114-140 | Returns the packed image of the file's records |
| Files.RecordWritten | include/pedrodb/file_manager.h:60-76 | Packing a record behind the last one, and its entry behind the index log, gives the images of the longer list |
| Database.DBImpl.constructor | src/db_impl.cc:122-132 | A database object on a disk holds the disk's records, the options it is given, and an empty memory and cache |
| Database.DBImpl.Init | src/db_impl.cc:34-50 | Recovers the memory that replaying the files gives, with the invariant |
| Database.DBImpl.RecoverRecord | src/db_impl.cc:406-458 | Makes exactly the specified replay step |
| Database.DBImpl.RecoverFromIndex | src/db_impl.cc:142-148 | Replays exactly the file's records from its index file |
| Database.DBImpl.RecoverFromData | src/db_impl.cc:150-164 | Replays exactly the records that a scan of the file sees |
| Database.DBImpl.RecoverFiles | src/db_impl.cc:327-338 | Replays all files in ascending order |
| Database.DBImpl.UpdateUnused | src/db_impl.cc:23-32 | Makes exactly the specified charge |
| Database.DBImpl.HandlePut | src/db_impl.cc:246-321 | Makes exactly the specified Put step and returns its status, with the invariant kept, the cache untouched, the index file of a sealed file left to be written, and the bytes of all sealed files as they were |
| Database.DBImpl.HandleGet | src/db_impl.cc:340-404 | NotFound for an absent key; if the caller or the options do not use the cache, or the record's file is the newest one, the map's value, or corruption exactly for a record that ends at the end of its file, with the cache untouched; otherwise the map's value, or corruption exactly if the record's first block was cached before the record was written; while the newest file is the active one a clean cache stays clean and serves every record; the store does not change |
| Database.DBImpl.Answer | src/db_impl.cc:352-403 | The body of HandleGet takes the path that the three conditions select, and leaves the blocks of the record in a cache with room |
| Database.DBImpl.ReadDirectly | src/db_impl.cc:357-383 | The iterator path computes the specified direct read |
| Database.DBImpl.ReadCached | src/db_impl.cc:385-403 | The cache path decodes and checks the bytes that the cache serves, and caches exactly the blocks it reads |
| Database.DBImpl.PublishMoved | src/db_impl.cc:216-233 | Makes exactly the specified publish step of a copy |
| Database.DBImpl.CompactRecord | src/db_impl.cc:191-233 | Makes exactly the specified iteration of a compaction |
| Database.DBImpl.CopyLiveRecords | src/db_impl.cc:187-234 | The scan loop visits every record the iterator sees, in order, those that its own copies append included, makes each iteration's step, and ends |
| Database.DBImpl.CompactFile | src/db_impl.cc:169-244 | Makes exactly the specified compaction, of a sealed file or of the active one: the database is valid afterwards if and only if that was safe, and then the file is gone from the disk, the other sealed files have the bytes they had, the map is the same, and what is on disk replays to it if and only if the file hid nothing |
| Database.DBImpl.PollCompactTask | src/db_impl.cc:100-107 | Returns the queue, empties it, and marks exactly its files as scheduled; every other file keeps its state, and no file's free bytes change |
| Database.DBImpl.SortTasks | src/db_impl.cc:114-114 | Returns the tasks in strictly ascending order |
| Database.DBImpl.CompactAll | src/db_impl.cc:109-120 | Polls the queue and compacts its files in ascending order, the active one among them if it was queued, each safe when its turn comes: none of them can be opened or is on disk afterwards, the other sealed files have the bytes they had, the map is the same, and what is on disk replays to it if and only if no tombstone in them hides a Set in another file |
| Database.DBImpl.WriteIndexFile | src/file_manager.cc:65-70 | The deferred task writes the index that the rollover left as the file's index file, and changes nothing else |
| Database.Restart | src/db_impl.cc:34-50 | Opening any disk that holds a store's files, as left between two operations or by a crash inside a rollover or a removal, gives the specified reopened store, with the options it is given and an empty cache; its index is the store's if and only if recovery sees every live record and every tombstone that hides a Set |
| Database.OpenedEmpty | src/file_manager.cc:13-21 | Opening an empty directory gives a new database |
| Blocks.PacksByShifts | include/pedrodb/cache/read_cache.h:56-58 | The 64-bit shifts and the | of the code compute the number of the block that holds the byte |
| Blocks.OrIsPlus | include/pedrodb/cache/read_cache.h:56-58 | Joining bits that do not overlap with | is adding them |
| Blocks.UnpacksByShifts | include/pedrodb/cache/read_cache.h:48-54 | The shifts and casts of the code take a block number apart into the block's offset and file |
| Blocks.BlockOf | include/pedrodb/cache/read_cache.h:48-58 | A block number unpacks to the file and to the offset of the block that holds the byte, and numbers within a file are consecutive |
| Blocks.BlockOfByte | include/pedrodb/cache/read_cache.h:48-58 | Every byte of a block packs to that block's number |
| Blocks.NextBlock | include/pedrodb/cache/read_cache.h:123-123 | A block ends where the next one begins, unless the 32-bit offset wraps |
| BlockCache.CoherentServes | include/pedrodb/cache/read_cache.h:97-137 | A cache whose blocks are the file's own serves the file itself |
| BlockCache.FilledServes | include/pedrodb/cache/read_cache.h:97-120 | The blocks that a read leaves in the cache change nothing of what the cache serves of the file, keep its blocks the file's own if they were, and touch no other file |
| BlockCache.GatheredStep | include/pedrodb/cache/read_cache.h:122-136 | Taking the part of one more block extends what has been gathered by exactly the next bytes of the read |
| BlockCache.ReadCache.FetchBlock | include/pedrodb/cache/read_cache.h:98-120 | Returns the cached block, or the file's bytes of the block, which are then cached if the cache has room at all, or the error of a short read |
| BlockCache.ReadCache.TakePart | include/pedrodb/cache/read_cache.h:122-136 | Takes exactly the part of the block between the read's bounds |
| BlockCache.ReadCache.Get | include/pedrodb/cache/read_cache.h:150-159 | Gathers exactly the bytes that the cache serves, cached blocks where there are any and the file's elsewhere, from any number of blocks, as a view if and only if one block covers the read, and decodes them; afterwards exactly the blocks of the read are cached in addition |
| BlockCache.SegmentShare | include/pedrodb/cache/read_cache.h:140-145 | A segment takes as many whole blocks as fit its share of the capacity, the least that all segments together need to hold it |
| BlockCache.Context.Build | include/pedrodb/cache/read_cache.h:80-90 | Decodes the gathered bytes |
| Segments.SegmentCache.GetOrCompute | include/pedrodb/cache/segment_cache.h:67-82 | Returns the cached value, or the supplied one, which is then cached if it could be computed and the cache has capacity; no other key changes |
| Segments.SegmentCache.constructor | include/pedrodb/cache/segment_cache.h:34-47 | Starts with empty segments |
| Lru.CacheIsRecencyOrdered | include/pedrodb/cache/lru_cache.h:48-146 | After any sequence of operations the cache holds exactly the last value put, and not removed, of each key, and lists the keys from least to most recently used |
| Lru.LRUCache.Get | include/pedrodb/cache/lru_cache.h:48-71 | Returns the key's value and makes the key the most recent one; the circular list stays linked both ways and in bijection with the map |
| Lru.LRUCache.Put | include/pedrodb/cache/lru_cache.h:111-146 | Stores the value and makes the key the most recent one, unless the capacity is zero; the list stays linked and in bijection with the map |
| Lru.LRUCache.Remove | include/pedrodb/cache/lru_cache.h:73-92 | Returns the value and drops the key and its node; the list stays linked and in bijection with the map |
| Lru.Unlink | include/pedrodb/cache/lru_cache.h:62-63 | Taking a node out closes the circle around it |
| Lru.LinkBack | include/pedrodb/cache/lru_cache.h:65-69 | Linking a node before the head puts it last on the circle |

## Left out

- Files are byte arrays whose writes persist: mapping, syncing, paths, permissions, the read-only
  file wrappers and `PosixReadWriteFile` are not modelled, nor are torn writes. Every I/O error path is
  left out, with `readonly_`, retries, a `CreateFile` that fails, and the executor's timers. The
  deferred write of an index file may happen at any later time, or never.
- Database.DBImpl.RecoverRecord: the abort for two records at one location is not modelled, because
  `Accounting.RecoverEffect` shows that the location replayed is always above the one in the index.
- pedrolib's buffers are taken as first-in first-out with exact big-endian integers. The zero bytes
  that an index file's buffer may have behind its last entry, which recovery ignores, are not part of
  the model.
- Files.FileManager.Append: requires room for one more file id below 2^32, as do the methods that call
  it; the wrap of the file id is not modelled.
- Database.DBImpl.HandlePut: requires a key of at most 255 bytes and a size below 2^32. The source
  accepts longer keys, which `Limits.LongKeyIsLost` shows are lost, and its size check wraps.
- MappedFiles.UnPackFrom: the sum of the two lengths of a header does not wrap as it does in the source,
  so corrupted files in which it would, where the source reads behind the buffer, are outside the
  statements.
- RecordScan.RecordIterator.Valid: the same.
- Database.DBImpl.CompactFile: requires room for the file ids that its copies may need below 2^32.
- Database.DBImpl.CompactAll: requires the same, and that every file is safe when its turn comes
  (`Sweeping.SweepableIs` says when); what further compactions do to a store that an unsafe one has
  damaged is not modelled.
- Metadata.MetadataManager.Init: the refusal of a path whose last character is none of `.`, `d` and `b`
  is not modelled; the path's name part is a parameter.
- Files.FileManager.OnDisk: a crash between two operations. Crashes inside a rollover, a removal or the
  first start are `Files.CrashInRollover`, `Files.CrashInRemove` and `Files.CrashInFirstStart`; a crash
  that tears a record is not modelled.
- More than one write of a key while it is being copied (`Overlapping.RaceOutcome` is about one, and
  `TwoWriters.TwoWrites` about two without a copy); byte counts and the compaction queue under
  interleaving; a writer that still holds the old file after a
  rollover.
- `FileManager`'s cache of open files, reading through an open file after its removal, and
  `ReleaseDataFile`.
- `DBImpl::GetIterator`: it does not seek to the records it should yield. `SegmentDB`: routing over
  independent stores.
- `SegmentCache`'s `Get`, `Put` and `Remove`, which pass one call on to one segment; a capacity bound
  of the cache, which the source does not keep (`Lru.LRUCache.Evict` removes nothing).
- Options parsing, logging, benchmarks and debug tools.

/** The database object (src/db_impl.cc, include/pedrodb/db_impl.h). Each method is specified by the
    function of module Store, Compaction or Recovery that says what it does to the store's state. */
module Database {
  import opened Basics
  import opened RecordFormat
  import opened RecordScan
  import opened IndexFormat
  import opened Metadata
  import opened Log
  import opened Accounting
  import opened Store
  import opened Compaction
  import opened Recovery
  import opened Runs
  import opened Sweeping
  import opened Files
  import opened Blocks
  import opened BlockCache
  import opened CacheRuns
  import opened Segments

  /** The state of a store that was just opened on files holding log. */
  ghost function Opened(env: Env, log: Log, last: FileId, indexed: set<FileId>): (s: Store)
  {
    Reopen(env, Store(log, last, indexed, NO_MEM, 0, map[]))
  }

  lemma OpenedInv(env: Env, v: FilesView)
    requires Consistent(v) && Wellformed(env, v.log)
    ensures Inv(env, Opened(env, v.log, v.activeId, v.index.Keys))
  {
    hide Total, Image, IndexImage;
    ReopenKeepsInv(env, Store(v.log, v.activeId, v.index.Keys, NO_MEM, 0, map[]));
  }

  /** Opening an empty directory gives a new database. */
  lemma OpenedEmpty(env: Env)
    ensures Opened(env, map[1 := []], 1, {}) == Created() && Wellformed(env, map[1 := []])
  {
    var log: Log := map[1 := []];
    assert 1 in log;
    assert SeenLog(log, {}) == log && LastFile(log) == 1;
    assert Removed(log, 1) == map[];
    assert RecoverAll(log, env.threshold) == RecoverFile(NO_MEM, env.threshold, 1, [], 0);
  }

  lemma OpenedMem(env: Env, log: Log, last: FileId, indexed: set<FileId>)
    ensures var s := Opened(env, log, last, indexed);
            && s.mem == RecoverAll(SeenLog(log, indexed), env.threshold) && s.maxFile == last
            && s.log == log && s.active == last && s.indexed == indexed
  {
  }

  lemma CompactTheorem(env: Env, s: Store, f: FileId)
    requires Inv(env, s) && f in s.log && f !in s.mem.tasks
    ensures Compact(s, f) == DropFile(CopyUpTo(StartCompact(s, f), f, RECORDS_PER_FILE), f)
    ensures Compacts(env, StartCompact(s, f), f)
    ensures Inv(env, Compact(s, f)) <==> Safe(s, f)
    ensures Safe(s, f) ==> View(env, Compact(s, f)) == View(env, s)
    ensures Safe(s, f) && Durable(s) ==> (Durable(Compact(s, f)) <==> !Resurrects(s.log, f))
  {
    hide Inv, View, Durable, Safe, CopyUpTo, DropFile, Compacts, StartCompact, Resurrects;
    StartKeeps(env, s, f);
    CompactKeepsInv(env, s, f);
    if Safe(s, f) {
      CompactKeepsView(env, s, f);
      if Durable(s) { CompactKeepsDurable(env, s, f); }
    }
  }

  lemma CompactsNow(env: Env, s: Store, f: FileId, n: nat)
    requires Compacts(env, s, f)
    ensures Compacts(env, CopyUpTo(s, f, n), f)
  {
    hide Compacts, CopyUpTo, View, MovedBelow, Grows;
    CopyUpToKeeps(env, s, f, n);
  }

  /** The iterator's place in the file that a round has made longer. */
  lemma RoundMoves(env: Env, s: Store, f: FileId, n: nat)
    requires Compacts(env, s, f) && n < |Seen(s.log[f])|
    ensures n < |s.log[f]| && Storable(s.log[f][n])
    ensures var s' := CopyStep(s, f, n);
            && f in s'.log && n + 1 <= |Seen(s'.log[f])|
            && Offset(Seen(s'.log[f]), n + 1) == Offset(Seen(s.log[f]), n) + Size(s.log[f][n])
  {
    FilesAre(env, s);
    RecordGenuine(env, s, f, n);
    hide CopyStep, MemOk, PublishCopy, Total, Seen, Genuine;
    CopyStepKeeps(env, s, f, n);
    RoundEffect(env, s, f, n);
    SeenOffsets(s.log[f], n);
    OffsetStep(s.log[f], n);
    if Copies(s, f, n) {
      FitsTarget(env, s, s.log[f][n]);
      ScanMoves(s.log, Target(s.log, s.active, Size(s.log[f][n])), s.log[f][n], f, n);
    }
    SeenOffsets(CopyStep(s, f, n).log[f], n + 1);
  }

  lemma FitsTarget(env: Env, s: Store, e: Entry)
    requires FilesOk(env, s) && Storable(e)
    ensures Total(RecordsOf(s.log, Target(s.log, s.active, Size(e)))) + Size(e) <= MAX_FILE_BYTES
  {
    TargetFits(env, s, e);
  }

  lemma SeenLogFiles(log: Log, indexed: set<FileId>, f: FileId)
    ensures f in SeenLog(log, indexed) <==> f in log
  {
  }

  lemma AscendingAt(ids: seq<FileId>, n: nat)
    requires Ascending(ids) && n < |ids|
    ensures forall i :: 0 <= i < n ==> ids[i] < ids[n]
  {
  }

  lemma SameWithout(a: map<FileId, Bytes>, b: map<FileId, Bytes>, id: FileId, gone: FileId)
    requires SameBelow(a, b, id)
    ensures SameBelow(a - {gone}, b - {gone}, id)
  {
  }

  /** The first n files are not on disk any more, and no file of theirs is still written to. */
  predicate AllGone(ids: seq<FileId>, n: nat, data: map<FileId, Bytes>, active: FileId)
    requires n <= |ids|
  {
    forall i :: 0 <= i < n ==> ids[i] < active && ids[i] !in data
  }

  lemma NoElements(ids: seq<FileId>, data: map<FileId, Bytes>, id: FileId)
    ensures SameBelow(data - Elements(ids[..0]), data, id) && AllGone(ids, 0, data, id)
  {
    assert Elements(ids[..0]) == {};
  }

  /** What one more compaction leaves of the files that were gone, and of those that were not. */
  lemma GoneStays(ids: seq<FileId>, n: nat, a: map<FileId, Bytes>, b: map<FileId, Bytes>, c: map<FileId, Bytes>, first: FileId,
                  active: FileId, active': FileId)
    requires n < |ids| && first <= active <= active' && ids[n] < active' && ids[n] !in c
    requires SameBelow(a - Elements(ids[..n]), b, first) && SameBelow(b - {ids[n]}, c, active) && AllGone(ids, n, b, active)
    ensures SameBelow(a - Elements(ids[..n + 1]), c, first) && AllGone(ids, n + 1, c, active')
  {
    ElementsStep(ids, n + 1);
  }

  /** How many file ids n compactions use at most. */
  function IdsFor(n: nat): (ids: nat)
  {
    if n == 0 then 0 else IdsFor(n - 1) + RECORDS_PER_FILE + 1
  }

  lemma IdsForNext(n: nat, m: nat)
    requires n < m
    ensures IdsFor(n + 1) == IdsFor(n) + RECORDS_PER_FILE + 1 <= IdsFor(m)
  {
    IdsForGrows(n + 1, m);
  }

  lemma {:induction false} IdsForGrows(n: nat, m: nat)
    requires n <= m
    ensures IdsFor(n) <= IdsFor(m)
  {
    if n < m { IdsForGrows(n, m - 1); }
  }

  lemma PutFits(env: Env, key: Bytes, value: Bytes)
    requires PutAllowed(env, key, value) && SizeOf(env.Record(key, value)) <= MAX_FILE_BYTES
    ensures Storable(env.Record(key, value))
  {
  }

  class DBImpl {
    const env: Env
    const cacheEnabled: bool
    const files: FileManager
    const cache: ReadCache
    var maxFile: FileId
    var indices: map<Bytes, Dir>
    var fileStates: map<FileId, FileState>
    var compactTasks: seq<FileId>
    // Per file, the bytes that are neither live nor charged as free.
    ghost var uncharged: map<FileId, nat>

    ghost function Repr(): (objects: set<object>)
      reads this, files, cache, cache.blocks
    {
      {this} + files.Repr() + cache.Repr()
    }

    function Memory(): (m: Mem)
      reads this
    {
      Mem(indices, fileStates, compactTasks)
    }

    ghost function State(): (s: Store)
      reads this, files
    {
      Store(files.log, files.activeId, files.index.Keys, Memory(), maxFile, uncharged)
    }

    ghost predicate Separate()
      reads this, files, cache, cache.blocks, files.Repr(), cache.Repr()
    {
      && this !in files.Repr() && this !in cache.Repr() && files.Repr() !! cache.Repr()
      && cache.Valid()
    }

    ghost predicate Parts()
      reads this, files, cache, cache.blocks, files.Repr(), cache.Repr()
    {
      Separate() && files.Valid()
    }

    ghost predicate Valid()
      reads this, files, cache, cache.blocks, files.Repr(), cache.Repr()
    {
      Parts() && Inv(env, State())
    }

    /** The database object on a disk, before Init has recovered its memory. */
    constructor (env: Env, name: Bytes, disk: Disk, cacheEnabled: bool, segments: nat, cacheBytes: nat, hash: nat -> nat,
                 ghost log: Log, ghost last: FileId)
      requires |name| < 0x1_0000 && segments > 0
      requires Unstarted(disk) || Holds(disk, log, last)
      ensures this.env == env && Parts() && fresh(Repr())
      ensures if Unstarted(disk) then files.log == map[1 := []] && files.activeId == 1 && files.index == map[]
              else files.log == log && files.activeId == last && files.index == disk.index
      ensures Memory() == NO_MEM && maxFile == 0 && cache.Cached() == imap[]
      ensures this.cacheEnabled == cacheEnabled && cache.blocks.capacity == SegmentBlocks(segments, cacheBytes)
      ensures files.data == disk.data - {files.activeId} && files.pending == map[]
    {
      hide Consistent, FileManager.Valid, ReadCache.Valid, SegmentCache.Valid, SegmentCache.Lookup, Holds, Unstarted;
      this.env, this.cacheEnabled := env, cacheEnabled;
      files := new FileManager(name, disk, log, last);
      cache := new ReadCache(segments, cacheBytes, hash);
      maxFile, indices, fileStates, compactTasks, uncharged := 0, map[], map[], [], map[];
    }

    /** Init: recovers the memory from the files. */
    method Init()
      requires Parts() && Memory() == NO_MEM && maxFile == 0 && Wellformed(env, files.log)
      modifies this
      ensures Valid() && Repr() == old(Repr())
      ensures State() == Opened(env, files.log, files.activeId, files.index.Keys)
      ensures cache.Cached() == old(cache.Cached())
    {
      hide Consistent, Inv, Opened, RecoverAll, SeenLog, Wellformed, FileManager.Valid, ReadCache.Valid, SegmentCache.Valid, SegmentCache.Lookup;
      RecoverFiles();
      uncharged := Opened(env, files.log, files.activeId, files.index.Keys).uncharged;
      OpenedMem(env, files.log, files.activeId, files.index.Keys);
      ViewConsistent();
      OpenedInv(env, files.View());
    }

    lemma ViewConsistent()
      requires files.Valid()
      ensures Consistent(files.View())
    {
    }

    /** Recovery of one record of a log. */
    method RecoverRecord(id: FileId, v: IndexEntry)
      modifies this`indices, this`fileStates, this`compactTasks
      ensures Memory() == Recover(old(Memory()), env.threshold, Location(id, v.offset), v.kind, v.key, v.len)
    {
      var loc := Location(id, v.offset);
      if v.kind == SET {
        if v.key !in indices {
          indices := indices[v.key := Dir(v.len, loc)];
          return;
        }
        var dir := indices[v.key];
        if loc.Less(dir.loc) {
          UpdateUnused(loc.id, v.len);
          return;
        }
        UpdateUnused(dir.loc.id, dir.entrySize);
        indices := indices[v.key := Dir(v.len, loc)];
      }
      if v.kind == DELETE {
        UpdateUnused(loc.id, v.len);
        if v.key !in indices {
          return;
        }
        var dir := indices[v.key];
        if loc.Less(dir.loc) {
          return;
        }
        UpdateUnused(dir.loc.id, dir.entrySize);
        indices := indices - {v.key};
      }
    }

    /** Recovery of one file from its index file. */
    method RecoverFromIndex(id: FileId, index: Bytes, ghost rs: seq<Entry>)
      requires Total(rs) <= MAX_FILE_BYTES && AllStorable(rs) && index == IndexImage(rs)
      modifies this`indices, this`fileStates, this`compactTasks
      ensures Memory() == RecoverFile(old(Memory()), env.threshold, id, rs, |rs|)
    {
      hide Recover, RecoverFile, Total, IndexFrom, UnPackIndex;
      RecoverFileStart(Memory(), env.threshold, id, rs);
      var iter := new IndexIterator(index);
      ghost var n := 0;
      while true
        invariant fresh(iter) && fresh(iter.buffer) && n <= |rs|
        invariant iter.buffer.bytes == IndexFrom(rs, n)
        invariant Memory() == RecoverFile(old(Memory()), env.threshold, id, rs, n)
        modifies iter, iter.buffer, this`indices, this`fileStates, this`compactTasks
        decreases |rs| - n
      {
        IndexFromFront(rs, n);
        var valid := iter.Valid();
        if !valid {
          return;
        }
        RecoverRecord(id, iter.entry);
        RecoverFileNext(old(Memory()), env.threshold, id, rs, n);
        n := n + 1;
      }
    }

    /** Recovery of one file by scanning its records. */
    method RecoverFromData(id: FileId, data: Bytes, ghost rs: seq<Entry>)
      requires Total(rs) <= MAX_FILE_BYTES && AllStorable(rs) && data == Image(rs)
      modifies this`indices, this`fileStates, this`compactTasks
      ensures Memory() == RecoverFile(old(Memory()), env.threshold, id, Seen(rs), |Seen(rs)|)
    {
      hide Recover, RecoverFile, Total, Visible, Image, Seen;
      ghost var n, seen := 0, Seen(rs);
      RecoverFileStart(Memory(), env.threshold, id, seen);
      SeenStart(seen);
      var leftover: Bytes := *;
      var iter := new RecordIterator(|data|, leftover);
      while true
        invariant fresh(iter) && n <= |seen| && iter.size == |data|
        invariant iter.Ready() && iter.index == Offset(seen, n)
        invariant Memory() == RecoverFile(old(Memory()), env.threshold, id, seen, n)
        modifies iter, this`indices, this`fileStates, this`compactTasks
        decreases |seen| - n
      {
        SeenAt(rs, n);
        var valid := iter.Valid(data);
        if !valid {
          return;
        }
        var offset := iter.index;
        var next := iter.Next();
        RecoverRecord(id, IndexEntry(next.kind, next.key, offset, SizeOf(next)));
        OffsetStep(seen, n);
        RecoverFileNext(old(Memory()), env.threshold, id, seen, n);
        n := n + 1;
      }
    }

    /** Recovery of one file: from its index file if there is one, else by scanning it. */
    method RecoverOneFile(id: FileId)
      requires files.Valid() && id in files.log
      modifies this`indices, this`fileStates, this`compactTasks
      ensures var rs := SeenLog(files.log, files.index.Keys)[id];
              Memory() == RecoverFile(old(Memory()), env.threshold, id, rs, |rs|)
    {
      hide Total, Image, IndexImage, RecoverFile, Seen, Consistent, Replay;
      FileFacts(files.View(), id);
      var index := files.AcquireIndexFile(id);
      if index.Some? {
        RecoverFromIndex(id, index.value, files.log[id]);
        return;
      }
      var data := files.AcquireDataFile(id);
      RecoverFromData(id, data.value, files.log[id]);
    }

    /** Recovery: every file in ascending order. */
    method RecoverFiles()
      requires files.Valid() && this !in files.Repr() && Memory() == NO_MEM && maxFile == 0
      modifies this`maxFile, this`indices, this`fileStates, this`compactTasks
      ensures Memory() == RecoverAll(SeenLog(files.log, files.index.Keys), env.threshold)
      ensures maxFile == files.activeId
    {
      hide Total, Image, IndexImage, RecoverAll, RecoverFile, Consistent, Replay, Restrict, FileManager.Valid, SeenLog, Ascending;
      var ids := files.metadata.GetFiles();
      ghost var seen := SeenLog(files.log, files.index.Keys);
      FilesListed(ids);
      RestrictNothing(seen, env.threshold);
      var n := 0;
      while n < |ids|
        invariant n <= |ids| && files.Valid()
        invariant Memory() == RecoverAll(Restrict(seen, ids[..n]), env.threshold)
        invariant maxFile == if n == 0 then 0 else ids[n - 1]
        modifies this`maxFile, this`indices, this`fileStates, this`compactTasks
      {
        var file := ids[n];
        AscendingAt(ids, n);
        SeenLogFiles(files.log, files.index.Keys, file);
        RecoverNextFile(seen, ids, n, env.threshold);
        if maxFile < file {
          maxFile := file;
        }
        RecoverOneFile(file);
        n := n + 1;
      }
      assert ids[..|ids|] == ids;
      forall f ensures f in seen <==> f in files.log { SeenLogFiles(files.log, files.index.Keys, f); }
      RestrictAll(seen, ids);
    }

    lemma FilesListed(ids: seq<FileId>)
      requires files.Valid() && ids == files.metadata.files
      ensures Ascending(ids) && ids != [] && ids[|ids| - 1] == files.activeId
      ensures forall f :: f in ids <==> f in files.log
    {
      LastOf(ids, files.log, files.activeId);
    }

    /** UpdateUnused. */
    method UpdateUnused(file: FileId, unused: nat)
      modifies this`fileStates, this`compactTasks
      ensures Memory() == Charge(old(Memory()), env.threshold, file, unused)
    {
      var hint := if file in fileStates then fileStates[file] else FRESH_STATE;
      hint := hint.(free := hint.free + unused);
      if hint.free >= env.threshold {
        if hint.state == Nop {
          hint := hint.(state := Queued);
          compactTasks := compactTasks + [file];
        }
      }
      fileStates := fileStates[file := hint];
    }

    /** The part of HandlePut that runs under the lock, once the record is at loc. */
    method PublishPut(key: Bytes, isDelete: bool, size: nat, loc: Location) returns (status: Status)
      modifies this`maxFile, this`indices, this`fileStates, this`compactTasks
      ensures (status, Memory()) == Publish(old(Memory()), env.threshold, loc, key, isDelete, size)
      ensures maxFile == if old(maxFile) < loc.id then loc.id else old(maxFile)
    {
      if maxFile < loc.id {
        maxFile := loc.id;
      }
      if key !in indices {
        if isDelete {
          UpdateUnused(loc.id, size);
          return NotFound;
        }
        indices := indices[key := Dir(size, loc)];
        return Ok;
      }
      var dir := indices[key];
      UpdateUnused(dir.loc.id, dir.entrySize);
      indices := indices - {key};
      if !isDelete {
        indices := indices[key := Dir(size, loc)];
      }
      status := Ok;
    }

    lemma ActiveKnown()
      requires Valid()
      ensures files.activeId in files.log && Total(files.log[files.activeId]) <= MAX_FILE_BYTES
    {
      hide Image, IndexImage, Total;
    }

    /** HandlePut: a Put, or with an empty value a Delete. */
    method HandlePut(key: Bytes, value: Bytes) returns (status: Status)
      requires Valid() && PutAllowed(env, key, value) && files.activeId + 1 < FILE_ID_LIMIT
      modifies Repr()
      ensures Valid() && fresh(Repr() - old(Repr()))
      ensures (status, State()) == Put(env, old(State()), key, value)
      ensures cache.Cached() == old(cache.Cached()) && files.index == old(files.index)
      ensures old(files.activeId) in old(files.log) && Total(old(files.log)[old(files.activeId)]) <= MAX_FILE_BYTES
      ensures files.pending == if files.activeId == old(files.activeId) then old(files.pending)
                               else old(files.pending)[old(files.activeId) := IndexImage(old(files.log)[old(files.activeId)])]
      ensures SameBelow(old(files.data), files.data, old(files.activeId))
    {
      hide Inv, FileManager.Valid, ReadCache.Valid, Publish, PublishUncharged, Total, SegmentCache.Valid, SegmentCache.Lookup,
           Appended, EndOf, Target, Env.Record, ReadCache.Cached, IndexImage, SameBelow;
      ghost var s := State();
      ActiveKnown();
      AllSameBelow(files.data, files.activeId);
      PutKeepsInv(env, s, key, value);
      var e := env.Record(key, value);
      if SizeOf(e) > MAX_FILE_BYTES {
        return NotSupported;
      }
      PutFits(env, key, value);
      var loc := files.Append(e);
      uncharged := PublishUncharged(s.mem, loc, key, value == [], SizeOf(e), uncharged);
      status := PublishPut(key, value == [], SizeOf(e), loc);
    }

    /** HandleGet's direct path: seek, decode, check. */
    method ReadDirectly(file: Bytes, dir: Dir) returns (status: Status, value: Bytes)
      requires |file| == MAX_FILE_BYTES
      ensures (status, value) == DirectRead(env, file, dir)
    {
      hide UnPack;
      var leftover: Bytes := *;
      var iter := new RecordIterator(|file|, leftover);
      iter.Seek(dir.loc.offset);
      var valid := iter.Valid(file);
      if !valid {
        return Corruption, [];
      }
      var entry := iter.Next();
      if !env.Validate(entry) {
        return Corruption, [];
      }
      status, value := Ok, env.Plain(entry.value);
    }

    /** HandleGet's cached path: gather the record's blocks, decode, check. */
    method ReadCached(file: Bytes, dir: Dir) returns (status: Status, value: Bytes)
      requires cache.Valid() && |file| == MAX_FILE_BYTES
      requires dir.loc.id < FILE_ID_LIMIT && 0 < dir.entrySize && dir.loc.offset + dir.entrySize <= MAX_FILE_BYTES
      modifies cache.blocks.Repr
      ensures cache.Valid() && fresh(cache.Repr() - old(cache.Repr()))
      ensures (status, value) == CachedRead(env, RecordBytes(Served(old(cache.Cached()), dir.loc.id, file), dir))
      ensures cache.Cached() == if cache.blocks.capacity != 0 then BlocksAfter(old(cache.Cached()), file, dir) else old(cache.Cached())
    {
      hide UnPack, ReadCache.Valid, SegmentCache.Valid, SegmentCache.Lookup, Served, Filled, SameElsewhere, ReadCache.Cached;
      var ctx := new Context(dir.loc, dir.entrySize);
      status := cache.Get(ctx, Some(file));
      if status != Ok {
        return status, [];
      }
      if !env.Validate(ctx.entry) {
        return Corruption, [];
      }
      value := env.Plain(ctx.entry.value);
    }

    /** The store with the blocks its cache holds. */
    ghost function WithBlocks(): (a: CachedStore)
      requires cache.Valid()
      reads this, files, cache, cache.blocks, cache.blocks.Repr
    {
      CachedStore(State(), cache.Cached())
    }

    /** HandleGet: both paths return the value the map has for the key, except that the direct path
        cannot see a record that ends at the end of its file, and that the cached path returns what the
        cached blocks hold. */
    method HandleGet(key: Bytes, useReadCache: bool) returns (status: Status, value: Bytes)
      requires Valid()
      modifies cache.blocks.Repr
      ensures Valid() && fresh(Repr() - old(Repr())) && State() == old(State())
      ensures key !in indices ==> status == NotFound && value == []
      ensures Answers(env, cacheEnabled, cache.blocks.capacity != 0, old(WithBlocks()), key, useReadCache, WithBlocks(), (status, value))
      ensures key in indices && (!useReadCache || !cacheEnabled || indices[key].loc.id == maxFile) ==>
                (status, value) == if indices[key].loc.offset + indices[key].entrySize < MAX_FILE_BYTES
                                   then (Ok, View(env, State())[key]) else (Corruption, [])
      ensures key !in indices || !useReadCache || !cacheEnabled || indices[key].loc.id == maxFile ==>
                cache.Cached() == old(cache.Cached())
      ensures key in indices && useReadCache && cacheEnabled && indices[key].loc.id != maxFile
              && old(AsOf(cache.Cached(), files.log, files.activeId)) ==>
                (status, value) == if old(Behind(WithBlocks(), key)) then (Corruption, []) else (Ok, View(env, State())[key])
      ensures old(AsOf(cache.Cached(), files.log, files.activeId)) ==> AsOf(cache.Cached(), files.log, files.activeId)
      ensures maxFile == files.activeId && old(Clean(cache.Cached(), files.log, files.activeId)) ==>
                && Clean(cache.Cached(), files.log, files.activeId)
                && (key in indices ==>
                      || (status, value) == (Ok, View(env, State())[key])
                      || (indices[key].loc.offset + indices[key].entrySize == MAX_FILE_BYTES && (status, value) == (Corruption, [])))
    {
      hide Inv, FileManager.Valid, ReadCache.Valid, SegmentCache.Valid, SegmentCache.Lookup, Answers, Image, Total,
           Clean, AsOf, Behind, View, ReadCache.Cached;
      ghost var a := WithBlocks();
      InvNow();
      status, value := Answer(key, useReadCache);
      ghost var b := WithBlocks();
      AnswerMeans(a, key, useReadCache, b, (status, value));
    }

    /** What the answer of a Get means, in the cases of its contract. */
    lemma AnswerMeans(a: CachedStore, key: Bytes, useReadCache: bool, b: CachedStore, r: (Status, Bytes))
      requires Inv(env, a.store) && Answers(env, cacheEnabled, cache.blocks.capacity != 0, a, key, useReadCache, b, r)
      ensures b.store == a.store
      ensures key !in a.store.mem.indices ==> r == (NotFound, [])
      ensures key in a.store.mem.indices && (!useReadCache || !cacheEnabled || a.store.mem.indices[key].loc.id == a.store.maxFile) ==>
                var d := a.store.mem.indices[key];
                r == if d.loc.offset + d.entrySize < MAX_FILE_BYTES then (Ok, View(env, a.store)[key]) else (Corruption, [])
      ensures key !in a.store.mem.indices || !useReadCache || !cacheEnabled || a.store.mem.indices[key].loc.id == a.store.maxFile ==>
                b.blocks == a.blocks
      ensures AsOf(a.blocks, a.store.log, a.store.active) ==>
                && AsOf(b.blocks, b.store.log, b.store.active)
                && (key in a.store.mem.indices && useReadCache && cacheEnabled && a.store.mem.indices[key].loc.id != a.store.maxFile ==>
                      r == if Behind(a, key) then (Corruption, []) else (Ok, View(env, a.store)[key]))
      ensures a.store.maxFile == a.store.active && Clean(a.blocks, a.store.log, a.store.active) ==>
                && Clean(b.blocks, b.store.log, b.store.active)
                && (key in a.store.mem.indices ==>
                      var d := a.store.mem.indices[key];
                      r == (Ok, View(env, a.store)[key]) || (d.loc.offset + d.entrySize == MAX_FILE_BYTES && r == (Corruption, [])))
    {
      hide Inv, Image, Clean, AsOf, Behind, View, Accessed, DirectRead, CachedRead, RecordBytes;
      var room := cache.blocks.capacity != 0;
      if key in a.store.mem.indices { GetReturnsView(env, a.store, key); }
      if AsOf(a.blocks, a.store.log, a.store.active) { AnswerIs(env, cacheEnabled, room, a, key, useReadCache, b, r); }
      if a.store.maxFile == a.store.active && Clean(a.blocks, a.store.log, a.store.active) {
        CleanAnswer(env, cacheEnabled, room, a, key, useReadCache, b, r);
      }
    }

    /** The body of HandleGet: looks the key up, and reads its record directly or through the cache. */
    method Answer(key: Bytes, useReadCache: bool) returns (status: Status, value: Bytes)
      requires Valid()
      modifies cache.blocks.Repr
      ensures Valid() && fresh(Repr() - old(Repr())) && State() == old(State())
      ensures Answers(env, cacheEnabled, cache.blocks.capacity != 0, old(WithBlocks()), key, useReadCache, WithBlocks(), (status, value))
    {
      hide Consistent, Inv, FileManager.Valid, ReadCache.Valid, SegmentCache.Valid, SegmentCache.Lookup, Fetches, Image, Total,
           DirectRead, CachedRead, RecordBytes, View, Served, Filled, ReadCache.Cached, BlocksAfter;
      ghost var a := WithBlocks();
      if key !in indices {
        return NotFound, [];
      }
      var dir := indices[key];
      RecordFacts(key);
      InvNow();
      InvReadable(env, a.store, key);
      var file := files.AcquireDataFile(dir.loc.id).value;
      var directlyRead := !useReadCache;
      directlyRead := directlyRead || !cacheEnabled;
      directlyRead := directlyRead || dir.loc.id == maxFile;
      if directlyRead {
        status, value := ReadDirectly(file, dir);
      } else {
        status, value := ReadCached(file, dir);
        assert Accessed(env, a, Fetch(key), WithBlocks());
        FetchIs(env, cache.blocks.capacity != 0, a, key, WithBlocks());
      }
    }

    lemma InvNow()
      requires Valid()
      ensures Inv(env, State())
    {
    }

    /** What the index entry of a key gives the two read paths. */
    lemma RecordFacts(key: Bytes)
      requires Valid() && key in indices
      ensures var d := indices[key];
              && d.loc.id in files.log && d.loc.id <= files.activeId < FILE_ID_LIMIT
              && Total(files.log[d.loc.id]) <= MAX_FILE_BYTES
              && HEADER_SIZE <= d.entrySize && d.loc.offset + d.entrySize <= MAX_FILE_BYTES
              && files.AcquireDataFile(d.loc.id) == Some(Image(files.log[d.loc.id]))
              && CachedRead(env, RecordBytes(Image(files.log[d.loc.id]), d)) == (Ok, View(env, State())[key])
              && DirectRead(env, Image(files.log[d.loc.id]), d)
                 == if d.loc.offset + d.entrySize < MAX_FILE_BYTES then (Ok, View(env, State())[key]) else (Corruption, [])
    {
      hide Image, Visible, UnPack;
      GetReturnsView(env, State(), key);
      assert SoundAt(files.log, key, indices[key]);
      ActiveListed();
    }

    lemma ActiveListed()
      requires files.Valid()
      ensures files.activeId < FILE_ID_LIMIT && IsLast(files.log, files.activeId)
    {
      assert files.activeId in files.metadata.files;
    }

    // ---------------------------------------------------------------- compaction

    /** Points a key at its copy, unless the index has moved on since it was checked. */
    method PublishMoved(key: Bytes, size: nat, loc: Location)
      modifies this`indices, this`fileStates
      ensures Memory() == PublishCopy(old(Memory()), loc, key, size)
    {
      if key in indices {
        if indices[key].loc.Less(loc) {
          indices := indices[key := Dir(size, loc)];
        } else {
          var hint := if loc.id in fileStates then fileStates[loc.id] else FRESH_STATE;
          fileStates := fileStates[loc.id := hint.(free := hint.free + size)];
        }
      }
    }

    /** One record of the file being compacted: check, append, publish. */
    method CompactRecord(id: FileId, offset: nat, next: Entry, ghost i: nat)
      requires Parts() && files.activeId + 1 < FILE_ID_LIMIT
      requires id in files.log && i < |Seen(files.log[id])| && files.log[id][i] == next
      requires offset == Offset(files.log[id], i) && Storable(next)
      modifies Repr()
      ensures Parts() && fresh(Repr() - old(Repr()))
      ensures State() == CopyStep(old(State()), id, i)
      ensures old(files.activeId) <= files.activeId <= old(files.activeId) + 1
      ensures cache.Cached() == old(cache.Cached())
      ensures SameBelow(old(files.data), files.data, old(files.activeId))
      ensures SameBelow(old(files.pending), files.pending, old(files.activeId))
    {
      hide Consistent, FileManager.Valid, ReadCache.Valid, SegmentCache.Valid, SegmentCache.Lookup, Total, PublishCopy, Seen, SameBelow;
      AllSameBelow(files.data, files.activeId);
      AllSameBelow(files.pending, files.activeId);
      if next.kind != SET {
        return;
      }
      if next.key !in indices || indices[next.key].loc != Location(id, offset) {
        return;
      }
      var loc := files.Append(next);
      PublishMoved(next.key, SizeOf(next), loc);
    }

    method StartCompacting(id: FileId)
      modifies this`fileStates
      ensures State() == StartCompact(old(State()), id)
    {
      var hint := if id in fileStates then fileStates[id] else FRESH_STATE;
      fileStates := fileStates[id := hint.(state := Compacting)];
    }

    lemma CompactedFacts(id: FileId)
      requires Parts() && id in files.log
      ensures var rs := files.log[id];
              && Total(rs) <= MAX_FILE_BYTES && AllStorable(rs) && |Seen(rs)| <= RECORDS_PER_FILE
              && files.AcquireDataFile(id) == Some(Image(rs)) && RecordsOf(files.log, id) == rs
    {
      hide Image, IndexImage, Seen;
      RecordCount(files.log[id]);
    }

    /** One round of Compact's scan: false when the iterator sees no further record. The iterator reads
        the file as it is now, with the copies that earlier rounds appended to it if it was active. */
    method CompactNext(iter: RecordIterator, id: FileId, ghost n: nat) returns (more: bool)
      requires Parts() && Compacts(env, State(), id) && files.activeId + 1 < FILE_ID_LIMIT && iter !in Repr()
      requires iter.size == MAX_FILE_BYTES && iter.Ready()
      requires n <= |Seen(files.log[id])| && iter.index == Offset(Seen(files.log[id]), n)
      modifies Repr(), iter
      ensures Parts() && fresh(Repr() - old(Repr())) && iter !in Repr()
      ensures more <==> n < |Seen(old(files.log)[id])|
      ensures if more then State() == CopyStep(old(State()), id, n) else State() == old(State())
      ensures more ==> id in files.log && n + 1 <= |Seen(files.log[id])|
                       && iter.Ready() && iter.index == Offset(Seen(files.log[id]), n + 1)
      ensures old(files.activeId) <= files.activeId <= old(files.activeId) + 1
      ensures cache.Cached() == old(cache.Cached())
      ensures SameBelow(old(files.data), files.data, old(files.activeId))
      ensures SameBelow(old(files.pending), files.pending, old(files.activeId))
    {
      hide Consistent, FileManager.Valid, ReadCache.Valid, SegmentCache.Valid, SegmentCache.Lookup, ReadCache.Cached, Total,
           CopyStep, Inv, Visible, Image, Seen, RecordsOf, AllStorable, SameBelow;
      AllSameBelow(files.data, files.activeId);
      AllSameBelow(files.pending, files.activeId);
      CompactedFacts(id);
      ghost var rs := files.log[id];
      var file := files.AcquireDataFile(id).value;
      SeenAt(rs, n);
      more := iter.Valid(file);
      if !more {
        return;
      }
      SeenOffsets(rs, n);
      RoundMoves(env, State(), id, n);
      var offset := iter.index;
      var next := iter.Next();
      CompactRecord(id, offset, next, n);
    }

    /** The scan of Compact: every record the iterator sees, in order. It ends, also in the active file,
        because the file does not grow beyond its size. */
    method CopyLiveRecords(id: FileId, iter: RecordIterator)
      requires Parts() && Compacts(env, State(), id) && iter !in Repr()
      requires files.activeId + RECORDS_PER_FILE + 1 < FILE_ID_LIMIT
      requires iter.size == MAX_FILE_BYTES && iter.Ready() && iter.index == 0
      modifies Repr(), iter
      ensures Parts() && fresh(Repr() - old(Repr()))
      ensures State() == CopyUpTo(old(State()), id, RECORDS_PER_FILE)
      ensures old(files.activeId) <= files.activeId <= old(files.activeId) + RECORDS_PER_FILE
      ensures cache.Cached() == old(cache.Cached())
      ensures SameBelow(old(files.data), files.data, old(files.activeId))
      ensures SameBelow(old(files.pending), files.pending, old(files.activeId))
    {
      hide FileManager.Valid, ReadCache.Valid, Total, CopyStep, CopyUpTo, Image, Seen, AllStorable, RecordIterator.Ready,
           ReadCache.Cached, Inv, SameBelow;
      AllSameBelow(files.data, files.activeId);
      AllSameBelow(files.pending, files.activeId);
      ghost var s := State();
      ghost var n := 0;
      SeenStart(Seen(files.log[id]));
      CopyUpToSteps(s, id, 0);
      while true
        invariant Parts() && fresh(Repr() - old(Repr())) && iter !in Repr()
        invariant State() == CopyUpTo(s, id, n) && Compacts(env, State(), id)
        invariant n <= |Seen(files.log[id])| && n <= RECORDS_PER_FILE
        invariant iter.Ready() && iter.index == Offset(Seen(files.log[id]), n)
        invariant old(files.activeId) <= files.activeId <= old(files.activeId) + n
        invariant SameBelow(old(files.data), files.data, old(files.activeId))
        invariant SameBelow(old(files.pending), files.pending, old(files.activeId))
        invariant cache.Cached() == old(cache.Cached())
        decreases RECORDS_PER_FILE - n
      {
        CompactedFacts(id);
        CopyUpToSteps(s, id, n);
        CompactsNow(env, s, id, n + 1);
        ghost var data, pending, active := files.data, files.pending, files.activeId;
        var more := CompactNext(iter, id, n);
        SameBelowStep(old(files.data), data, files.data, old(files.activeId), active);
        SameBelowStep(old(files.pending), pending, files.pending, old(files.activeId), active);
        if !more {
          ScanStops(s, id, n, RECORDS_PER_FILE);
          return;
        }
        n := n + 1;
      }
    }

    /** Compact up to the end of its scan. */
    method CopyFile(id: FileId)
      requires Parts() && id in files.log && Compacts(env, StartCompact(State(), id), id)
      requires files.activeId + RECORDS_PER_FILE + 1 < FILE_ID_LIMIT
      modifies Repr()
      ensures Parts() && fresh(Repr() - old(Repr()))
      ensures State() == CopyUpTo(StartCompact(old(State()), id), id, RECORDS_PER_FILE)
      ensures old(files.activeId) <= files.activeId <= old(files.activeId) + RECORDS_PER_FILE
      ensures cache.Cached() == old(cache.Cached())
      ensures SameBelow(old(files.data), files.data, old(files.activeId))
      ensures SameBelow(old(files.pending), files.pending, old(files.activeId))
    {
      hide FileManager.Valid, ReadCache.Valid, SegmentCache.Valid, SegmentCache.Lookup, Total, Seen,
           CopyUpTo, StartCompact, Image, AllStorable, RecordsOf, Compacts, ReadCache.Cached, SameBelow;
      CompactedFacts(id);
      var file := files.AcquireDataFile(id).value;
      StartCompacting(id);
      var leftover: Bytes := *;
      var iter := new RecordIterator(|file|, leftover);
      CopyLiveRecords(id, iter);
    }

    /** The end of Compact: the file's state and the file itself go. */
    method FinishCompact(id: FileId)
      requires Parts()
      modifies Repr()
      ensures Separate() && Repr() == old(Repr()) && (files.Valid() <==> id != files.activeId)
      ensures State() == DropFile(old(State()), id) && files.activeId == old(files.activeId)
      ensures files.data == old(files.data) - {id} && files.pending == old(files.pending) && (id != files.activeId ==> files.AcquireDataFile(id) == None)
      ensures cache.Cached() == old(cache.Cached())
    {
      hide FileManager.Valid, FileManager.AcquireDataFile, ReadCache.Valid, ReadCache.Cached, SegmentCache.Valid, SegmentCache.Lookup,
           FileManager.OnDisk, DropFile;
      ghost var s := State();
      Forget(id);
      files.RemoveFile(id);
      DroppedIs(s, State(), id);
    }

    lemma DroppedIs(s: Store, t: Store, id: FileId)
      requires t.log == s.log - {id} && t.active == s.active && t.indexed == s.indexed - {id} && t.maxFile == s.maxFile
      requires t.mem == s.mem.(states := s.mem.states - {id}) && t.uncharged == s.uncharged - {id}
      ensures t == DropFile(s, id)
    {
    }

    method Forget(id: FileId)
      modifies this`fileStates, this`uncharged
      ensures fileStates == old(fileStates) - {id} && uncharged == old(uncharged) - {id}
    {
      fileStates := fileStates - {id};
      uncharged := uncharged - {id};
    }

    lemma ValidIs(id: FileId)
      requires Separate() && (files.Valid() <==> id != files.activeId) && id !in files.log
      ensures Valid() <==> Inv(env, State())
    {
    }

    /** Compact of one file, sealed or active, whose state is no longer queued. The store stays valid
        exactly if that is safe. Then nothing a reader sees changes, and what is on disk still replays to
        it unless the file hides a deleted key. */
    method CompactFile(id: FileId)
      requires Valid() && id in files.log && id !in compactTasks
      requires files.activeId + RECORDS_PER_FILE + 1 < FILE_ID_LIMIT
      modifies Repr()
      ensures fresh(Repr() - old(Repr()))
      ensures State() == Compact(old(State()), id) && files.activeId <= old(files.activeId) + RECORDS_PER_FILE
      ensures Valid() <==> Safe(old(State()), id)
      ensures Valid() ==> View(env, State()) == old(View(env, State()))
      ensures Valid() && old(Durable(State())) ==> (Durable(State()) <==> !Resurrects(old(files.log), id))
      ensures cache.Valid() && cache.Cached() == old(cache.Cached())
      ensures old(files.activeId) <= files.activeId && SameBelow(old(files.data) - {id}, files.data, old(files.activeId))
      ensures SameBelow(old(files.pending), files.pending, old(files.activeId))
      ensures Valid() ==> id < files.activeId && files.AcquireDataFile(id) == None && id !in files.OnDisk().data
    {
      hide Inv, View, Durable, Safe, FileManager.Valid, FileManager.OnDisk, SameBelow, ReadCache.Valid, SegmentCache.Valid, SegmentCache.Lookup, Total, Seen,
           CopyUpTo, StartCompact, DropFile, Resurrects, Image, AllStorable, RecordsOf, Compacts, Compact, ReadCache.Cached;
      ghost var s := State();
      CompactTheorem(env, s, id);
      CopyFile(id);
      Dropped(State(), id);
      SameWithout(old(files.data), files.data, old(files.activeId), id);
      FinishCompact(id);
      ValidIs(id);
      SafelyGone(s, id);
    }

    /** A valid database has no file on disk that it has removed. */
    lemma SafelyGone(s: Store, id: FileId)
      requires Separate() && id !in files.log && id !in files.data && (id != files.activeId ==> files.AcquireDataFile(id) == None)
      requires Inv(env, s) && id in s.log && s.active <= files.activeId
      ensures Valid() ==> id < files.activeId && files.AcquireDataFile(id) == None && id !in files.OnDisk().data
    {
      hide MemOk, Consistent, ReadCache.Valid, SegmentCache.Valid, SegmentCache.Lookup;
      if Valid() { ActiveKnown(); }
    }

    lemma Dropped(s: Store, id: FileId)
      ensures id !in DropFile(s, id).log
    {
    }

    /** PollCompactTask: takes the whole queue and marks its files as scheduled. */
    method PollCompactTask() returns (tasks: seq<FileId>)
      requires Scheduled(Memory(), env.threshold)
      modifies this`fileStates, this`compactTasks
      ensures tasks == old(compactTasks) && Memory() == Polled(old(Memory())) && compactTasks == []
      ensures indices == old(indices) && forall f ::
                && StateOf(Memory(), f).free == StateOf(old(Memory()), f).free
                && StateOf(Memory(), f).state == if f in tasks then Scheduling else StateOf(old(Memory()), f).state
    {
      PolledIs(Memory(), env.threshold);
      tasks := compactTasks;
      compactTasks := [];
      var n := 0;
      while n < |tasks|
        invariant n <= |tasks| && compactTasks == [] && indices == old(indices)
        invariant fileStates == map f | f in old(fileStates) ::
                    if f in tasks[..n] then old(fileStates)[f].(state := Scheduling) else old(fileStates)[f]
      {
        var file := tasks[n];
        assert file in tasks && file !in tasks[..n];
        fileStates := fileStates[file := fileStates[file].(state := Scheduling)];
        assert tasks[..n + 1] == tasks[..n] + [file];
        n := n + 1;
      }
      assert tasks[..|tasks|] == tasks;
    }

    /** std::sort of the polled tasks, which are distinct. */
    method SortTasks(tasks: seq<FileId>) returns (ids: seq<FileId>)
      ensures Ascending(ids) && |ids| <= |tasks| && forall f :: f in ids <==> f in tasks
    {
      ids := [];
      var n := 0;
      while n < |tasks|
        invariant |ids| <= n <= |tasks| && Ascending(ids) && forall f :: f in ids <==> f in tasks[..n]
      {
        InsertElements(ids, tasks[n]);
        InsertLength(ids, tasks[n]);
        ids := Insert(ids, tasks[n]);
        assert tasks[..n + 1] == tasks[..n] + [tasks[n]];
        n := n + 1;
      }
      assert tasks[..|tasks|] == tasks;
    }

    /** Compacts the given files one after the other. */
    method CompactFiles(ids: seq<FileId>)
      requires Valid() && Ready(State(), ids) && AllSafe(State(), ids)
      requires files.activeId + IdsFor(|ids|) + 1 < FILE_ID_LIMIT
      modifies Repr()
      ensures Valid() && fresh(Repr() - old(Repr()))
      ensures State() == Sweep(old(State()), ids, |ids|)
      ensures cache.Cached() == old(cache.Cached())
      ensures AllGone(ids, |ids|, files.data, files.activeId)
      ensures SameBelow(old(files.data) - Elements(ids), files.data, old(files.activeId))
      ensures SameBelow(old(files.pending), files.pending, old(files.activeId))
    {
      hide Inv, Safe, FileManager.Valid, ReadCache.Valid, SegmentCache.Valid, SegmentCache.Lookup, ReadCache.Cached, Sweep, Ready, AllSafe, IdsFor,
           SameBelow, Elements, AllGone;
      ghost var t := State();
      NoElements(ids, files.data, files.activeId);
      AllSameBelow(files.pending, files.activeId);
      SweepSteps(env, t, ids, 0);
      var n := 0;
      while n < |ids|
        invariant Valid() && fresh(Repr() - old(Repr()))
        invariant n <= |ids| && State() == Sweep(t, ids, n)
        invariant old(files.activeId) <= files.activeId <= old(files.activeId) + IdsFor(n)
        invariant cache.Cached() == old(cache.Cached())
        invariant AllGone(ids, n, files.data, files.activeId)
        invariant SameBelow(old(files.data) - Elements(ids[..n]), files.data, old(files.activeId))
        invariant SameBelow(old(files.pending), files.pending, old(files.activeId))
      {
        IdsForNext(n, |ids|);
        ghost var data, pending, active := files.data, files.pending, files.activeId;
        CompactNth(ids, n, t);
        SameBelowStep(old(files.pending), pending, files.pending, old(files.activeId), active);
        GoneStays(ids, n, old(files.data), data, files.data, old(files.activeId), active, files.activeId);
        n := n + 1;
      }
      assert ids[..|ids|] == ids;
    }

    /** One round of that loop. */
    method CompactNth(ids: seq<FileId>, n: nat, ghost t: Store)
      requires Valid() && Inv(env, t) && Ready(t, ids) && AllSafe(t, ids) && n < |ids| && State() == Sweep(t, ids, n)
      requires files.activeId + RECORDS_PER_FILE + 1 < FILE_ID_LIMIT
      modifies Repr()
      ensures Valid() && fresh(Repr() - old(Repr()))
      ensures State() == Sweep(t, ids, n + 1) && files.activeId <= old(files.activeId) + RECORDS_PER_FILE
      ensures cache.Cached() == old(cache.Cached())
      ensures old(files.activeId) <= files.activeId && ids[n] < files.activeId && ids[n] !in files.data
      ensures SameBelow(old(files.data) - {ids[n]}, files.data, old(files.activeId))
      ensures SameBelow(old(files.pending), files.pending, old(files.activeId))
    {
      hide SameBelow, FileManager.OnDisk, Inv, View, Durable, Safe, FileManager.Valid, ReadCache.Valid, SegmentCache.Valid, SegmentCache.Lookup, Compact, Sweep,
           Ready, AllSafe, Resurrects;
      SweepSteps(env, t, ids, n);
      CompactFile(ids[n]);
      GoneFromData(ids[n]);
    }

    lemma GoneFromData(id: FileId)
      requires files.Valid() && id < files.activeId && id !in files.OnDisk().data
      ensures id !in files.data
    {
      hide FileManager.Valid;
    }

    /** Compact: polls the queue and compacts its files in ascending order, the active one among them if
        it has been queued. The map stays the same, and so does what is on disk exactly if no tombstone
        in the files of the queue hides a Set in another file. */
    method CompactAll()
      requires Valid() && Sweepable(State())
      requires files.activeId + IdsFor(|compactTasks|) + 1 < FILE_ID_LIMIT
      modifies Repr()
      ensures Valid() && fresh(Repr() - old(Repr()))
      ensures compactTasks == [] && forall f :: f in old(compactTasks) ==> f !in files.log
      ensures View(env, State()) == old(View(env, State()))
      ensures old(Durable(State())) ==> (Durable(State()) <==> !ResurrectsAny(old(files.log), Elements(old(compactTasks))))
      ensures cache.Cached() == old(cache.Cached())
      ensures forall ids :: Ascending(ids) && (forall f :: f in ids <==> f in old(compactTasks)) ==>
                State() == Sweep(old(State()).(mem := Polled(old(Memory()))), ids, |ids|)
      ensures forall f :: f in old(compactTasks) ==> files.AcquireDataFile(f) == None && f !in files.OnDisk().data
      ensures SameBelow(old(files.data) - Elements(old(compactTasks)), files.data, old(files.activeId))
      ensures SameBelow(old(files.pending), files.pending, old(files.activeId))
    {
      hide Inv, View, Durable, FileManager.Valid, ReadCache.Valid, SegmentCache.Valid, SegmentCache.Lookup, Sweep,
           Polled, Ascending, Sweepable, AllSafe, Ready, ResurrectsAny, IdsFor, SameBelow, FileManager.OnDisk;
      ghost var s := State();
      ScheduledNow();
      var tasks := PollCompactTask();
      var ids := SortTasks(tasks);
      PolledReady(env, s, ids);
      IdsForGrows(|ids|, |tasks|);
      assert Elements(ids) == Elements(tasks);
      ghost var t := State();
      SweepDone(env, t, ids);
      CompactFiles(ids);
      forall other | Ascending(other) && forall f :: f in other <==> f in tasks ensures other == ids {
        AscendingUnique(other, ids);
      }
      forall f | f in tasks ensures files.AcquireDataFile(f) == None && f !in files.OnDisk().data {
        assert f in ids;
        NotOnDisk(f);
      }
    }

    lemma NotOnDisk(id: FileId)
      requires files.Valid() && id < files.activeId && id !in files.data
      ensures files.AcquireDataFile(id) == None && id !in files.OnDisk().data
    {
      hide FileManager.Valid;
    }

    lemma ScheduledNow()
      requires Valid()
      ensures Scheduled(Memory(), env.threshold)
    {
    }

    /** The deferred task that writes a sealed file's index file. */
    method WriteIndexFile(id: FileId)
      requires Valid()
      modifies files
      ensures Valid() && Repr() == old(Repr()) && cache.Cached() == old(cache.Cached())
      ensures State() == if id in old(files.pending) then Apply(env, old(State()), Op.WriteIndexFile(id)) else old(State())
      ensures files.pending == old(files.pending) - {id} && files.data == old(files.data)
      ensures files.index == if id in old(files.pending) then old(files.index)[id := old(files.pending)[id]] else old(files.index)
    {
      hide Inv, FileManager.Valid, ReadCache.Valid, SegmentCache.Valid, SegmentCache.Lookup, Consistent;
      PendingSealed(id);
      BackgroundRefines(env, State(), Op.WriteIndexFile(id));
      ghost var s, sealed := State(), id in files.pending;
      files.WriteIndexFile(id);
      assert State() == if sealed then Apply(env, s, Op.WriteIndexFile(id)) else s;
    }

    lemma PendingSealed(id: FileId)
      requires files.Valid()
      ensures id in files.pending ==> id < files.activeId
    {
    }
  }

  /** Opening a disk that holds the files of store s: what a database leaves behind between two
      operations, or where a crash inside a rollover or the removal of a file leaves it. The index, so
      the map, is that of s exactly when recovery sees every live record and every tombstone that
      hides a Set. */
  method Restart(env: Env, name: Bytes, disk: Disk, cacheEnabled: bool, segments: nat, cacheBytes: nat, hash: nat -> nat,
                 ghost s: Store)
    returns (db: DBImpl)
    requires Inv(env, s) && Holds(disk, s.log, s.active) && disk.index.Keys == s.indexed
    requires |name| < 0x1_0000 && segments > 0
    ensures fresh(db) && db.env == env && db.Valid()
    ensures db.State() == Reopen(env, s)
    ensures db.cacheEnabled == cacheEnabled && db.cache.blocks.capacity == SegmentBlocks(segments, cacheBytes)
    ensures db.cache.Cached() == imap[] && db.maxFile == db.files.activeId && db.files.pending == map[]
    ensures Durable(s) ==>
              && (db.indices == s.mem.indices <==> Harmless(s.log, SeenLog(s.log, s.indexed)))
              && (Harmless(s.log, SeenLog(s.log, s.indexed)) ==> View(env, db.State()) == View(env, s) && Durable(db.State()))
  {
    hide Inv, View, Durable, Harmless, SeenLog, FileManager.Valid, ReadCache.Valid, SegmentCache.Valid, SegmentCache.Lookup,
         Consistent, Holds, Unstarted, Wellformed;
    ReopenTheorem(env, s, disk);
    db := new DBImpl(env, name, disk, cacheEnabled, segments, cacheBytes, hash, s.log, s.active);
    db.Init();
  }

  lemma ReopenTheorem(env: Env, s: Store, disk: Disk)
    requires Inv(env, s) && Holds(disk, s.log, s.active)
    ensures !Unstarted(disk) && Wellformed(env, s.log)
    ensures Opened(env, s.log, s.active, s.indexed) == Reopen(env, s)
    ensures Durable(s) ==>
              && (Reopen(env, s).mem.indices == s.mem.indices <==> Harmless(s.log, SeenLog(s.log, s.indexed)))
              && (Harmless(s.log, SeenLog(s.log, s.indexed)) ==> View(env, Reopen(env, s)) == View(env, s) && Durable(Reopen(env, s)))
  {
    hide MemOk, View, Durable, Total, Image, IndexImage, RecoverAll, Harmless, SeenLog;
    HoldsFiles(disk, s.log, s.active);
    if Durable(s) { ReopenKeepsView(env, s); }
  }
}

/** The data files, their index files and the active file (include/pedrodb/file_manager.h,
    src/file_manager.cc). */
module Files {
  import opened Basics
  import opened RecordFormat
  import opened IndexFormat
  import opened Buffers
  import opened MappedFiles
  import opened Metadata
  import opened Log

  /** What survives a crash: the metadata file, the data files and the index files. */
  datatype Disk = Disk(metadata: Bytes, data: map<FileId, Bytes>, index: map<FileId, Bytes>)

  const NEW_FILE: Bytes := Zeros(MAX_FILE_BYTES)

  ghost predicate WellPacked(log: Log)
  {
    forall f :: f in log ==> Total(log[f]) <= MAX_FILE_BYTES && AllStorable(log[f])
  }

  /** Index files, where there are any, are the image of their data files. */
  ghost predicate Mirrors(index: map<FileId, Bytes>, log: Log, active: FileId)
    requires WellPacked(log)
  {
    forall f :: f in index ==> f < active && (f in log ==> index[f] == IndexImage(log[f]))
  }

  /** The sealed files are the images of their records. Above the active file there may be a new file
      that a rollover had created when the store crashed; below it, anything that was removed. */
  ghost predicate Packs(data: map<FileId, Bytes>, log: Log, active: FileId)
    requires WellPacked(log)
  {
    && (forall f :: f in data ==> f < active || (f > active && data[f] == NEW_FILE))
    && (forall f :: f in log && f != active ==> f in data && data[f] == Image(log[f]))
  }

  /** The disk of a store whose files hold log and whose last file is active. */
  ghost predicate Holds(disk: Disk, log: Log, active: FileId)
  {
    && active in log && IsLast(log, active) && active < FILE_ID_LIMIT
    && WellPacked(log)
    && Replay(disk.metadata).Some?
    && (forall f :: f in Replay(disk.metadata).value.1 <==> f in log)
    && active in disk.data && disk.data[active] == Image(log[active])
    && Packs(disk.data - {active}, log, active)
    && Mirrors(disk.index, log, active)
  }

  /** A disk on which no data file is registered: an empty directory, or what a crash has left of the
      first start. */
  ghost predicate Unstarted(disk: Disk)
  {
    && (disk.metadata == [] || (Replay(disk.metadata).Some? && Replay(disk.metadata).value.1 == []))
    && disk.index == map[]
    && (forall f :: f in disk.data ==> f >= 1 && disk.data[f] == NEW_FILE)
  }

  // ---------------------------------------------------------------- crashes between two writes to the disk

  lemma NewFilePacks(data: map<FileId, Bytes>, log: Log, active: FileId)
    requires WellPacked(log) && active in log && IsLast(log, active) && active in data && data[active] == Image(log[active])
    requires Packs(data - {active}, log, active)
    ensures var created, log' := data[active + 1 := NEW_FILE], log[active + 1 := []];
            Packs(created - {active}, log, active) && WellPacked(log') && Packs(created - {active + 1}, log', active + 1)
  {
    hide Image;
    var created, log' := data[active + 1 := NEW_FILE], log[active + 1 := []];
    forall f | f in log' ensures Total(log'[f]) <= MAX_FILE_BYTES && AllStorable(log'[f]) {}
    forall f | f in created - {active} ensures f < active || (f > active && created[f] == NEW_FILE) {
      assert f == active + 1 || f in data - {active};
    }
    forall f | f in log && f != active ensures f in created - {active} && created[f] == Image(log[f]) {
      assert f in data - {active};
    }
    forall f | f in created - {active + 1} ensures f < active + 1 || (f > active + 1 && created[f] == NEW_FILE) {
      assert f == active || f in data - {active};
    }
    forall f | f in log' && f != active + 1 ensures f in created - {active + 1} && created[f] == Image(log'[f]) {
      assert f == active || f in data - {active};
    }
  }

  /** A rollover creates the new data file and then registers it. A crash in between leaves a disk
      that still holds the old files; a crash behind it, one that holds the new file as well. */
  lemma CrashInRollover(disk: Disk, log: Log, active: FileId)
    requires Holds(disk, log, active) && active + 1 < FILE_ID_LIMIT
    ensures var created := disk.(data := disk.data[active + 1 := NEW_FILE]);
            && Holds(created, log, active)
            && Holds(created.(metadata := disk.metadata + PackLogEntry(CREATE_FILE, active + 1)), log[active + 1 := []], active + 1)
  {
    hide Total, Image, IndexImage, Replay, Packs, AllStorable;
    NewFileImage();
    ReplayAppend(disk.metadata, CREATE_FILE, active + 1);
    ReplayAscending(disk.metadata);
    InsertElements(Replay(disk.metadata).value.1, active + 1);
    NewFilePacks(disk.data, log, active);
  }

  lemma RemovedPacks(data: map<FileId, Bytes>, log: Log, active: FileId, id: FileId)
    requires WellPacked(log) && Packs(data - {active}, log, active) && id != active
    ensures WellPacked(Removed(log, id)) && Packs(data - {active}, Removed(log, id), active)
    ensures Packs(data - {id} - {active}, Removed(log, id), active)
  {
    hide Image, AllStorable, Total;
    var rest := data - {id} - {active};
    assert rest == data - {active} - {id};
  }

  lemma RemovedMetadata(metadata: Bytes, log: Log, id: FileId)
    requires Replay(metadata).Some? && id in log && id < FILE_ID_LIMIT && forall f :: f in Replay(metadata).value.1 <==> f in log
    ensures var entry := metadata + PackLogEntry(DELETE_FILE, id);
            Replay(entry).Some? && forall f :: f in Replay(entry).value.1 <==> f in Removed(log, id)
  {
    hide Replay, PackLogEntry;
    ReplayAppend(metadata, DELETE_FILE, id);
    ReplayAscending(metadata);
    EraseElements(Replay(metadata).value.1, id);
  }

  lemma RemovedMirrors(index: map<FileId, Bytes>, log: Log, active: FileId, id: FileId)
    requires WellPacked(log) && Mirrors(index, log, active)
    ensures WellPacked(Removed(log, id)) && Mirrors(index, Removed(log, id), active)
  {
    hide Total, IndexImage, AllStorable;
  }

  /** Removing a file takes it out of the metadata first. A crash before its data file is deleted
      leaves a disk that holds the remaining files. */
  lemma CrashBeforeUnlink(disk: Disk, log: Log, active: FileId, id: FileId)
    requires Holds(disk, log, active) && id in log && id != active
    ensures Holds(disk.(metadata := disk.metadata + PackLogEntry(DELETE_FILE, id)), Removed(log, id), active)
  {
    hide Image, Replay, Packs, Mirrors, WellPacked, PackLogEntry;
    RemovedMetadata(disk.metadata, log, id);
    RemovedPacks(disk.data, log, active, id);
    RemovedMirrors(disk.index, log, active, id);
  }

  /** So does the disk without the data file, before the index file goes and after. */
  lemma WithoutData(disk: Disk, log: Log, active: FileId, id: FileId)
    requires Holds(disk, log, active) && id !in log
    ensures Holds(disk.(data := disk.data - {id}), log, active)
  {
    hide Total, Image, IndexImage, Replay, Mirrors, AllStorable;
    assert disk.data - {id} - {active} == disk.data - {active} - {id};
  }

  lemma WithoutIndex(disk: Disk, log: Log, active: FileId, id: FileId)
    requires Holds(disk, log, active)
    ensures Holds(disk.(index := disk.index - {id}), log, active)
  {
    hide Total, Image, IndexImage, Replay, Packs, AllStorable;
  }

  lemma HoldsSmallIds(disk: Disk, log: Log, active: FileId)
    requires Holds(disk, log, active)
    ensures forall f :: f in log ==> f < FILE_ID_LIMIT
  {
  }

  /** Wherever the removal of a file is cut off by a crash, the disk holds the remaining files. */
  lemma CrashInRemove(disk: Disk, log: Log, active: FileId, id: FileId)
    requires Holds(disk, log, active) && id in log && id != active
    ensures var removed := disk.(metadata := disk.metadata + PackLogEntry(DELETE_FILE, id));
            && Holds(removed, Removed(log, id), active)
            && Holds(removed.(data := disk.data - {id}), Removed(log, id), active)
            && Holds(removed.(data := disk.data - {id}, index := disk.index - {id}), Removed(log, id), active)
  {
    HoldsSmallIds(disk, log, active);
    hide Holds, PackLogEntry;
    CrashBeforeUnlink(disk, log, active, id);
    var removed := disk.(metadata := disk.metadata + PackLogEntry(DELETE_FILE, id));
    WithoutData(removed, Removed(log, id), active, id);
    WithoutIndex(removed.(data := disk.data - {id}), Removed(log, id), active, id);
  }

  /** The first start creates the metadata file, data file 1 and its metadata entry, in this order. */
  lemma CrashInFirstStart(name: Bytes)
    requires |name| < 0x1_0000
    ensures Unstarted(Disk([], map[], map[]))
    ensures Unstarted(Disk(Metadata.PackHeader(name), map[], map[])) && Unstarted(Disk(Metadata.PackHeader(name), map[1 := NEW_FILE], map[]))
    ensures Holds(Disk(Metadata.PackHeader(name) + PackLogEntry(CREATE_FILE, 1), map[1 := NEW_FILE], map[]), map[1 := []], 1)
  {
    hide Replay;
    ReplayHeader(name);
    ReplayAppend(Metadata.PackHeader(name), CREATE_FILE, 1);
    NewFileImage();
  }

  lemma LastOf(files: seq<FileId>, log: Log, last: FileId)
    requires Ascending(files) && last in log && IsLast(log, last)
    requires forall f :: f in files <==> f in log
    ensures files != [] && files[|files| - 1] == last
  {
    assert last in files;
    assert files[|files| - 1] in files;
  }

  lemma NewFileImage()
    ensures Image([]) == NEW_FILE && IndexImage([]) == []
  {
    assert PackAll([]) + NEW_FILE == NEW_FILE;
  }

  /** Opening a data file for appending: its index log is rebuilt and the write position set behind
      its last record. */
  method OpenForAppend(content: Bytes) returns (file: MappedFile, indexLog: ByteBuffer)
    requires |content| == MAX_FILE_BYTES
    ensures fresh(file) && fresh(file.data) && fresh(indexLog) && file.Valid()
    ensures file.data[..] == content
    ensures Total(Decode(content, 0)) <= MAX_FILE_BYTES && file.writeIndex == Total(Decode(content, 0))
    ensures indexLog.bytes == IndexImage(Decode(content, 0))
  {
    file := new MappedFile(content);
    var offset;
    indexLog, offset := RebuildIndexLog(content);
    if offset != 0 {
      file.SetWriteOffset(offset);
    }
  }

  /** The rebuild loop of CreateFile: decodes the file from the front until UnPack fails. */
  method RebuildIndexLog(content: Bytes) returns (indexLog: ByteBuffer, offset: nat)
    requires |content| == MAX_FILE_BYTES
    ensures fresh(indexLog)
    ensures offset == Total(Decode(content, 0)) <= MAX_FILE_BYTES
    ensures indexLog.bytes == IndexImage(Decode(content, 0))
  {
    hide Total, IndexImage, Decode, PackIndex, UnPack;
    indexLog := new ByteBuffer([]);
    var buffer := new ByteBuffer(content);
    offset := 0;
    ghost var done: seq<Entry> := [];
    RebuildingStart(content);
    while true
      invariant fresh(buffer) && fresh(indexLog) && buffer != indexLog
      invariant Rebuilding(content, offset, done, indexLog.bytes)
      invariant buffer.bytes == content[offset..]
      decreases |content| - offset
    {
      ghost var o := offset;
      var entry := UnPackFrom(buffer);
      if entry.None? {
        RebuildingDone(content, o, done, indexLog.bytes);
        return;
      }
      var e := entry.value;
      RebuildingStep(content, o, done, indexLog.bytes, e);
      DropDrop(content, o, Size(e));
      PackIndexInto(indexLog, EntryView(e, offset));
      offset := offset + SizeOf(e);
      done := done + [e];
    }
  }

  /** How far the rebuild loop has got: the records before offset are done. */
  ghost predicate Rebuilding(content: Bytes, offset: nat, done: seq<Entry>, indexLog: Bytes)
  {
    && offset == Total(done) <= |content| == MAX_FILE_BYTES
    && indexLog == IndexImage(done)
    && Decode(content, 0) == done + Decode(content, offset)
  }

  lemma RebuildingStart(content: Bytes)
    requires |content| == MAX_FILE_BYTES
    ensures Rebuilding(content, 0, [], []) && content[0..] == content
  {
  }

  lemma DecodeNext(content: Bytes, offset: nat, done: seq<Entry>, e: Entry)
    requires offset <= |content| && Decode(content, 0) == done + Decode(content, offset)
    requires UnPack(content[offset..]).Some? && UnPack(content[offset..]).value.entry == e
    ensures offset + Size(e) <= |content| && UnPack(content[offset..]).value.size == Size(e)
    ensures Decode(content, 0) == (done + [e]) + Decode(content, offset + Size(e))
  {
    hide Decode, Size;
    DecodeStep(content, offset);
    Regroup(done, e, Decode(content, offset + Size(e)));
  }

  lemma Regroup(done: seq<Entry>, e: Entry, rest: seq<Entry>)
    ensures done + ([e] + rest) == (done + [e]) + rest
  {
  }

  lemma DecodeStep(content: Bytes, offset: nat)
    requires offset <= |content| && UnPack(content[offset..]).Some?
    ensures var p := UnPack(content[offset..]).value;
            offset + p.size <= |content| && Decode(content, offset) == [p.entry] + Decode(content, offset + p.size)
  {
    hide UnPack;
  }

  lemma RebuildingStep(content: Bytes, offset: nat, done: seq<Entry>, indexLog: Bytes, e: Entry)
    requires Rebuilding(content, offset, done, indexLog)
    requires UnPack(content[offset..]).Some? && UnPack(content[offset..]).value.entry == e
    ensures UnPack(content[offset..]).value.size == Size(e) && offset + Size(e) <= MAX_FILE_BYTES
    ensures Rebuilding(content, offset + Size(e), done + [e], indexLog + PackIndex(EntryView(e, offset)))
  {
    DecodeNext(content, offset, done, e);
    IndexImageAppend(done, e);
    TotalAppend(done, e);
  }

  lemma RebuildingDone(content: Bytes, offset: nat, done: seq<Entry>, indexLog: Bytes)
    requires Rebuilding(content, offset, done, indexLog) && UnPack(content[offset..]) == None
    ensures done == Decode(content, 0)
  {
    assert done + [] == done;
  }

  lemma DropDrop(s: Bytes, o: nat, n: nat)
    requires o + n <= |s|
    ensures s[o..][n..] == s[o + n..]
  {
  }

  /** Allocates room for the record in the active file and packs it there: None if it does not fit. */
  method PackRecord(file: MappedFile, e: Entry) returns (offset: Option<nat>)
    requires file.Valid() && SizeOf(e) == Size(e)
    modifies file, file.data
    ensures file.Valid()
    ensures if old(file.writeIndex) + Size(e) > MAX_FILE_BYTES
            then offset == None && file.writeIndex == old(file.writeIndex) && file.data[..] == old(file.data[..])
            else offset == Some(old(file.writeIndex)) && file.writeIndex == old(file.writeIndex) + Size(e)
                 && file.data[..] == Written(old(file.data[..]), old(file.writeIndex), Pack(e))
  {
    var buffer := file.Allocate(SizeOf(e));
    if buffer == null {
      return None;
    }
    var ok := PackInto(buffer, e);
    assert buffer.written == [] + Pack(e) == Pack(e);
    offset := Some(buffer.offset);
  }

  /** The values a file manager keeps, and the records they stand for. */
  datatype FilesView = FilesView(log: Log, activeId: FileId, bytes: Bytes, writeIndex: nat, activeLog: Bytes,
                                 data: map<FileId, Bytes>, index: map<FileId, Bytes>, pending: map<FileId, Bytes>)

  ghost predicate Consistent(v: FilesView)
  {
    && v.activeId in v.log && IsLast(v.log, v.activeId)
    && WellPacked(v.log)
    && v.bytes == Image(v.log[v.activeId]) && v.writeIndex == Total(v.log[v.activeId])
    && v.activeLog == IndexImage(v.log[v.activeId])
    && Packs(v.data, v.log, v.activeId)
    && Mirrors(v.index, v.log, v.activeId) && Mirrors(v.pending, v.log, v.activeId)
  }

  /** Sealing the active file and making an empty one active. */
  lemma SealKeeps(v: FilesView)
    requires Consistent(v)
    ensures Consistent(v.(log := v.log[v.activeId + 1 := []], activeId := v.activeId + 1,
                          bytes := NEW_FILE, writeIndex := 0, activeLog := [],
                          data := (v.data - {v.activeId + 1})[v.activeId := v.bytes], pending := v.pending[v.activeId := v.activeLog]))
  {
    hide Image, IndexImage;
    NewFileImage();
  }

  lemma Sealed(v: FilesView, bytes: Bytes, newData: map<FileId, Bytes>, newPending: map<FileId, Bytes>)
    requires Consistent(v) && bytes == NEW_FILE
    requires newData == (v.data - {v.activeId + 1})[v.activeId := v.bytes] && newPending == v.pending[v.activeId := v.activeLog]
    ensures Consistent(FilesView(v.log[v.activeId + 1 := []], v.activeId + 1, bytes, 0, [], newData, v.index, newPending))
  {
    hide Consistent;
    SealKeeps(v);
  }

  /** A file that is already there when a rollover wants to create it is as good as new. */
  lemma OrphanIsNew(v: FilesView)
    requires Consistent(v)
    ensures v.activeId + 1 in v.data ==> v.data[v.activeId + 1] == NEW_FILE
  {
    hide Image, IndexImage;
  }

  lemma RolledAppend(log: Log, active: FileId, e: Entry)
    requires IsLast(log, active)
    ensures var id := active + 1;
            Appended(log[id := []], id, e) == Appended(log, id, e) && EndOf(log[id := []], id) == EndOf(log, id)
  {
  }

  lemma StorableFitsNewFile(e: Entry)
    requires Storable(e)
    ensures Total([]) + Size(e) <= MAX_FILE_BYTES
  {
  }

  lemma NewFile()
    ensures Decode(NEW_FILE, 0) == [] && Total(Decode(NEW_FILE, 0)) == 0 && IndexImage(Decode(NEW_FILE, 0)) == []
  {
    NewFileImage();
    DecodeImage([]);
  }

  lemma ActiveEnd(v: FilesView)
    requires Consistent(v)
    ensures v.activeId in v.log && IsLast(v.log, v.activeId) && v.writeIndex == Total(v.log[v.activeId]) <= MAX_FILE_BYTES
  {
  }

  /** What a reader of file id finds. */
  lemma FileFacts(v: FilesView, id: FileId)
    requires Consistent(v) && id in v.log
    ensures Total(v.log[id]) <= MAX_FILE_BYTES && AllStorable(v.log[id])
    ensures id in v.index ==> v.index[id] == IndexImage(v.log[id])
    ensures forall f :: f in v.index ==> f < v.activeId
  {
    hide Total, Image, IndexImage;
  }

  lemma NewDatabase(disk: Disk)
    requires Unstarted(disk)
    ensures Consistent(FilesView(map[1 := []], 1, NEW_FILE, 0, [], disk.data - {1}, disk.index, map[]))
    ensures 1 in disk.data ==> disk.data[1] == NEW_FILE
    ensures Decode(NEW_FILE, 0) == [] && Total(Decode(NEW_FILE, 0)) == 0 && IndexImage(Decode(NEW_FILE, 0)) == []
  {
    NewFile();
    NewFileImage();
  }

  lemma HoldsFiles(disk: Disk, log: Log, active: FileId)
    ensures Holds(disk, log, active) ==>
              && disk.metadata != [] && Replay(disk.metadata).Some? && active in log && IsLast(log, active)
              && (forall f :: f in Replay(disk.metadata).value.1 <==> f in log)
              && active in disk.data && !Unstarted(disk)
  {
    if Holds(disk, log, active) { assert active in Replay(disk.metadata).value.1; }
  }

  lemma UnstartedFiles(disk: Disk)
    ensures Unstarted(disk) ==>
              && disk.index == map[]
              && (disk.metadata == [] || (Replay(disk.metadata).Some? && Replay(disk.metadata).value.1 == []))
  {
  }

  lemma OpenedDatabase(disk: Disk, log: Log, last: FileId)
    requires Holds(disk, log, last)
    ensures Decode(disk.data[last], 0) == log[last] && Total(log[last]) <= MAX_FILE_BYTES && |disk.data[last]| == MAX_FILE_BYTES
    ensures Consistent(FilesView(log, last, disk.data[last], Total(log[last]), IndexImage(log[last]),
                                 disk.data - {last}, disk.index, map[]))
  {
    DecodeImage(log[last]);
  }

  /** Packing a record behind the last one, and its entry behind the index log. */
  lemma WriteKeeps(v: FilesView, e: Entry)
    requires Consistent(v) && Storable(e) && Total(v.log[v.activeId]) + Size(e) <= MAX_FILE_BYTES
    ensures Consistent(v.(log := Appended(v.log, v.activeId, e), writeIndex := v.writeIndex + Size(e),
                          bytes := Written(v.bytes, v.writeIndex, Pack(e)),
                          activeLog := v.activeLog + PackIndex(EntryView(e, v.writeIndex))))
  {
    hide Total, Image, IndexImage;
    RecordWritten(v.log[v.activeId], e);
    AllStorableAppend(v.log[v.activeId], e);
    var log' := Appended(v.log, v.activeId, e);
    assert WellPacked(log');
    assert Packs(v.data, log', v.activeId);
    assert Mirrors(v.index, log', v.activeId) && Mirrors(v.pending, log', v.activeId);
  }

  lemma IndexKeeps(v: FilesView, id: FileId)
    requires Consistent(v) && id in v.pending
    ensures Consistent(v.(index := v.index[id := v.pending[id]], pending := v.pending - {id}))
  {
    hide Total, Image, IndexImage;
  }

  lemma DiskHolds(metadata: Bytes, files: seq<FileId>, v: FilesView)
    requires Consistent(v) && Replay(metadata).Some? && Replay(metadata).value.1 == files
    requires forall f :: f in files <==> f in v.log
    requires forall f :: f in files ==> f < FILE_ID_LIMIT
    ensures Holds(Disk(metadata, v.data[v.activeId := v.bytes], v.index), v.log, v.activeId)
  {
    hide Total, Image, IndexImage, Replay, AllStorable, Mirrors;
    assert Packs(v.data[v.activeId := v.bytes] - {v.activeId}, v.log, v.activeId);
  }

  lemma RemoveKeeps(v: FilesView, id: FileId)
    requires Consistent(v)
    ensures Consistent(v.(log := Removed(v.log, id), data := v.data - {id}, index := v.index - {id})) <==> id != v.activeId
  {
    hide Total, Image, IndexImage;
  }

  /** The files below id are the same, bytes included. */
  ghost predicate SameBelow(a: map<FileId, Bytes>, b: map<FileId, Bytes>, id: FileId)
  {
    forall f :: f < id ==> (f in a <==> f in b) && (f in a ==> a[f] == b[f])
  }

  lemma AllSameBelow(data: map<FileId, Bytes>, id: FileId)
    ensures SameBelow(data, data, id)
  {
  }

  lemma AddedAbove(data: map<FileId, Bytes>, id: FileId, bytes: Bytes)
    ensures SameBelow(data, data[id := bytes], id)
  {
  }

  lemma SameBelowStep(a: map<FileId, Bytes>, b: map<FileId, Bytes>, c: map<FileId, Bytes>, id: FileId, id': FileId)
    requires SameBelow(a, b, id) && SameBelow(b, c, id') && id <= id'
    ensures SameBelow(a, c, id)
  {
  }

  /** The disk that the values stand for. */
  function DiskOf(metadata: Bytes, v: FilesView): (disk: Disk)
  {
    Disk(metadata, v.data[v.activeId := v.bytes], v.index)
  }

  lemma CreatedDisk(metadata: Bytes, metadata': Bytes, v: FilesView, v': FilesView)
    requires Consistent(v) && v'.activeId == v.activeId + 1 && v'.bytes == NEW_FILE && v'.index == v.index
    requires v'.data == (v.data - {v.activeId + 1})[v.activeId := v.bytes]
    ensures DiskOf(metadata', v')
         == DiskOf(metadata, v).(data := DiskOf(metadata, v).data[v.activeId + 1 := NEW_FILE], metadata := metadata')
    ensures SameBelow(v.data, v'.data, v.activeId) && v.activeId in v'.data
  {
    hide Consistent;
    assert v'.data[v'.activeId := v'.bytes] == v.data[v.activeId := v.bytes][v.activeId + 1 := NEW_FILE];
  }

  lemma RemovedDisk(metadata: Bytes, metadata': Bytes, v: FilesView, id: FileId)
    requires id != v.activeId
    ensures DiskOf(metadata', v.(log := v.log - {id}, data := v.data - {id}, index := v.index - {id}))
         == Disk(metadata', DiskOf(metadata, v).data - {id}, DiskOf(metadata, v).index - {id})
  {
    assert (v.data - {id})[v.activeId := v.bytes] == v.data[v.activeId := v.bytes] - {id};
  }

  lemma ActiveLogIs(v: FilesView)
    requires Consistent(v)
    ensures v.activeId in v.log && Total(v.log[v.activeId]) <= MAX_FILE_BYTES && v.activeLog == IndexImage(v.log[v.activeId])
    ensures v.activeId !in v.data
  {
    hide Image, IndexImage, Total;
  }

  class FileManager {
    const metadata: MetadataManager
    // The active data file, its index log and its id.
    var active: MappedFile
    var activeLog: ByteBuffer
    var activeId: FileId
    // The other data files and the index files on disk, and the index files still to be written.
    var data: map<FileId, Bytes>
    var index: map<FileId, Bytes>
    var pending: map<FileId, Bytes>
    // The records in the data files.
    ghost var log: Log

    ghost function Repr(): (objects: set<object>)
      reads this
    {
      {this, metadata, active, active.data, activeLog}
    }

    ghost function View(): (v: FilesView)
      reads this, Repr()
    {
      FilesView(log, activeId, active.data[..], active.writeIndex, activeLog.bytes, data, index, pending)
    }

    ghost predicate Valid()
      reads this, Repr()
    {
      && metadata.Valid() && active.Valid()
      && (forall f :: f in metadata.files <==> f in log)
      && Consistent(View())
    }

    /** What a crash now would leave behind. */
    function OnDisk(): (disk: Disk)
      requires Valid()
      reads Repr()
      ensures Holds(disk, log, activeId)
      ensures disk == DiskOf(metadata.file, View())
      ensures disk.metadata == metadata.file && disk.index == index && disk.data == data[activeId := active.data[..]]
    {
      DiskHolds(metadata.file, metadata.files, View());
      Disk(metadata.file, data[activeId := active.data[..]], index)
    }

    /** Init: the metadata file is replayed and its last file opened for appending; without any file,
        the one empty file 1 is created. */
    constructor (name: Bytes, disk: Disk, ghost log: Log, ghost last: FileId)
      requires |name| < 0x1_0000
      requires Unstarted(disk) || Holds(disk, log, last)
      ensures Valid() && fresh(Repr())
      ensures if Unstarted(disk) then this.log == map[1 := []] && activeId == 1 && index == map[]
              else this.log == log && activeId == last && index == disk.index
      ensures data == disk.data - {activeId} && pending == map[]
      ensures disk.metadata == [] ==> metadata.name == name
    {
      hide Consistent, Total, Image, IndexImage, Decode, Replay, Holds, Unstarted, MetadataManager.Valid, MappedFile.Valid, IsLast;
      HoldsFiles(disk, log, last);
      UnstartedFiles(disk);
      var m := new MetadataManager(name, disk.metadata);
      var ok := m.Init();
      var id, content;
      if m.files == [] {
        NewDatabase(disk);
        m.CreateFile(1);
        id, content := 1, if 1 in disk.data then disk.data[1] else NEW_FILE;
      } else {
        LastOf(m.files, log, last);
        id := m.files[|m.files| - 1];
        content := disk.data[id];
        OpenedDatabase(disk, log, last);
      }
      var file, indexLog := OpenForAppend(content);
      metadata, active, activeLog, activeId := m, file, indexLog, id;
      data, index, pending := disk.data - {id}, disk.index, map[];
      this.log := if Unstarted(disk) then map[1 := []] else log;
      new;
      var none: map<FileId, Bytes> := map[];
      assert none - {1} == none;
      assert View() == FilesView(this.log, id, content, Total(this.log[id]), IndexImage(this.log[id]),
                                 disk.data - {id}, disk.index, none);
    }

    /** Opens the file after the active one, which is new even if a crash has left it behind. */
    method OpenNext() returns (file: MappedFile, indexLog: ByteBuffer)
      requires Valid()
      ensures fresh(file) && fresh(file.data) && fresh(indexLog) && file.Valid()
      ensures file.data[..] == NEW_FILE && file.writeIndex == 0 && indexLog.bytes == []
    {
      hide Consistent, Total, Image, IndexImage, Decode, Replay, MetadataManager.Valid, MappedFile.Valid;
      OrphanIsNew(View());
      NewFile();
      var content := if activeId + 1 in data then data[activeId + 1] else NEW_FILE;
      file, indexLog := OpenForAppend(content);
    }

    /** FileManager::CreateFile at rollover: the active file is sealed, its index log handed to the
        executor, and an empty file becomes active. */
    method CreateFile(id: FileId)
      requires Valid() && id == activeId + 1 && id < FILE_ID_LIMIT
      modifies Repr()
      ensures Valid() && fresh(Repr() - old(Repr()))
      ensures log == old(log)[id := []] && activeId == id
      ensures old(activeId) in old(log) && Total(old(log)[old(activeId)]) <= MAX_FILE_BYTES
      ensures index == old(index) && pending == old(pending)[old(activeId) := IndexImage(old(log)[old(activeId)])]
      ensures SameBelow(old(data), data, old(activeId)) && old(activeId) in data
      ensures OnDisk() == old(OnDisk()).(data := old(OnDisk()).data[id := NEW_FILE],
                                         metadata := old(metadata.file) + PackLogEntry(CREATE_FILE, id))
    {
      hide Consistent, Total, Image, IndexImage, Decode, Replay, Ascending, MetadataManager.Valid, MappedFile.Valid, SameBelow, DiskOf,
           FileManager.OnDisk;
      ghost var was, before := View(), metadata.file;
      ActiveLogIs(was);
      NewIdIsFree(id);
      var file, indexLog := OpenNext();
      var newData, newPending := (data - {id})[activeId := active.data[..]], pending[activeId := activeLog.bytes];
      metadata.CreateFile(id);
      Sealed(was, file.data[..], newData, newPending);
      Switch(file, indexLog, id, newData, newPending, log[id := []]);
      CreatedDisk(before, metadata.file, was, View());
    }

    lemma NewIdIsFree(id: FileId)
      requires Valid() && id == activeId + 1
      ensures id !in metadata.files
    {
      hide Total, Image, IndexImage, Replay, Packs, Mirrors, WellPacked;
    }

    /** Makes a file the active one, once everything agrees on it. */
    method Switch(file: MappedFile, indexLog: ByteBuffer, id: FileId, newData: map<FileId, Bytes>, newPending: map<FileId, Bytes>,
                  ghost newLog: Log)
      requires metadata.Valid() && file.Valid() && forall f :: f in metadata.files <==> f in newLog
      requires Consistent(FilesView(newLog, id, file.data[..], file.writeIndex, indexLog.bytes, newData, index, newPending))
      modifies this
      ensures Valid() && active == file && activeLog == indexLog && activeId == id && Repr() == {this, metadata, file, file.data, indexLog}
      ensures log == newLog && data == newData && index == old(index) && pending == newPending
    {
      hide Consistent, MetadataManager.Valid, MappedFile.Valid;
      active, activeLog, activeId := file, indexLog, id;
      data, pending, log := newData, newPending, newLog;
    }

    /** One round of FileManager::Append: packs the record behind the active file's last one and logs
        it in the file's index log, if it fits. */
    method TryAppend(e: Entry) returns (loc: Option<Location>)
      requires Valid() && Storable(e)
      modifies active, active.data, activeLog, this`log
      ensures Valid() && activeId == old(activeId)
      ensures loc == if Total(old(log)[activeId]) + Size(e) <= MAX_FILE_BYTES then Some(EndOf(old(log), activeId)) else None
      ensures log == if loc.Some? then Appended(old(log), activeId, e) else old(log)
    {
      hide Consistent, Total, Image, IndexImage, Decode, Replay;
      ghost var was := View();
      ActiveEnd(was);
      var offset := PackRecord(active, e);
      if offset.None? {
        return None;
      }
      PackIndexInto(activeLog, EntryView(e, offset.value));
      WriteKeeps(was, e);
      log := Appended(log, activeId, e);
      loc := Some(Location(activeId, offset.value));
    }

    lemma ActiveNow()
      requires Valid()
      ensures activeId in log && IsLast(log, activeId) && Total(log[activeId]) <= MAX_FILE_BYTES
    {
      hide Total, Image, IndexImage, Replay;
      ActiveEnd(View());
    }

    /** FileManager::Append: retries in a new file when the active one is too full. A storable record
        fits a new file, so the loop ends after at most one rollover. */
    method Append(e: Entry) returns (loc: Location)
      requires Valid() && Storable(e) && activeId + 1 < FILE_ID_LIMIT
      modifies Repr()
      ensures Valid() && fresh(Repr() - old(Repr()))
      ensures activeId == Target(old(log), old(activeId), Size(e))
      ensures log == Appended(old(log), activeId, e) && loc == EndOf(old(log), activeId)
      ensures index == old(index)
      ensures old(activeId) in old(log) && Total(old(log)[old(activeId)]) <= MAX_FILE_BYTES
      ensures pending == if activeId == old(activeId) then old(pending)
                         else old(pending)[old(activeId) := IndexImage(old(log)[old(activeId)])]
      ensures SameBelow(old(data), data, old(activeId)) && SameBelow(old(pending), pending, old(activeId))
    {
      hide FileManager.Valid, Total, Image, IndexImage, Replay, FileManager.OnDisk, SameBelow;
      ghost var rolled := false;
      ActiveNow();
      AllSameBelow(data, activeId);
      AllSameBelow(pending, activeId);
      AddedAbove(pending, activeId, IndexImage(log[activeId]));
      while true
        invariant Valid() && fresh(Repr() - old(Repr())) && index == old(index)
        invariant activeId in log
        invariant SameBelow(old(data), data, old(activeId))
        invariant !rolled ==> log == old(log) && activeId == old(activeId) && pending == old(pending) && data == old(data)
        invariant rolled ==> pending == old(pending)[old(activeId) := IndexImage(old(log)[old(activeId)])]
        invariant rolled ==> activeId == old(activeId) + 1 == Target(old(log), old(activeId), Size(e))
                             && log == old(log)[activeId := []]
        decreases !rolled
      {
        var placed := TryAppend(e);
        if placed.Some? {
          RolledAppend(old(log), old(activeId), e);
          return placed.value;
        }
        if rolled {
          StorableFitsNewFile(e);
          assert false;
        }
        CreateFile(activeId + 1);
        rolled := true;
      }
    }

    /** The deferred CreateIndexFile task of a sealed file. */
    method WriteIndexFile(id: FileId)
      requires Valid()
      modifies this
      ensures Valid() && Repr() == old(Repr()) && log == old(log) && activeId == old(activeId)
      ensures index == if id in old(pending) then old(index)[id := old(pending)[id]] else old(index)
      ensures pending == old(pending) - {id} && data == old(data)
    {
      hide Consistent, Total, Image, IndexImage, Decode, Replay;
      if id in pending {
        IndexKeeps(View(), id);
        index := index[id := pending[id]];
        pending := pending - {id};
      }
    }

    lemma SmallIds()
      requires Valid()
      ensures forall f :: f in log ==> f < FILE_ID_LIMIT
    {
      hide Consistent;
    }

    /** FileManager::RemoveFile. The active file can be removed as well, and then nothing is left to
        append to that a reader would find. Any other file goes from the disk, and nothing else does. */
    method RemoveFile(id: FileId)
      requires Valid()
      modifies this, metadata
      ensures Repr() == old(Repr()) && log == old(log) - {id} && activeId == old(activeId)
      ensures data == old(data) - {id} && index == old(index) - {id} && pending == old(pending)
      ensures Valid() <==> id != activeId
      ensures active == old(active) && active.data[..] == old(active.data[..])
      ensures id != activeId ==> AcquireDataFile(id) == None && AcquireIndexFile(id) == None
      ensures id != activeId && id in old(log) ==>
                OnDisk() == Disk(old(metadata.file) + PackLogEntry(DELETE_FILE, id), old(OnDisk()).data - {id}, old(OnDisk()).index - {id})
    {
      hide Consistent, Total, Image, IndexImage, Decode, Replay, MetadataManager.Valid, MappedFile.Valid, DiskOf, FileManager.OnDisk;
      ghost var was, before := View(), metadata.file;
      SmallIds();
      RemoveKeeps(was, id);
      metadata.DeleteFile(id);
      data := data - {id};
      index := index - {id};
      log := log - {id};
      if id != activeId { RemovedDisk(before, metadata.file, was, id); }
    }

    /** The current bytes of a data file, if it exists. */
    function AcquireDataFile(id: FileId): (file: Option<Bytes>)
      reads Repr()
      ensures Valid() && id in log ==> file == Some(Image(log[id]))
    {
      if id == activeId then Some(active.data[..])
      else if id in data then Some(data[id])
      else None
    }

    /** The bytes of an index file, if there is one. */
    function AcquireIndexFile(id: FileId): (file: Option<Bytes>)
      reads this
    {
      if id in index then Some(index[id]) else None
    }
  }

  /** Packing a record behind the last one, and its entry behind the index log, gives the images of
      the longer record list. */
  lemma RecordWritten(rs: seq<Entry>, e: Entry)
    requires Total(rs) + Size(e) <= MAX_FILE_BYTES
    ensures Total(rs + [e]) == Total(rs) + Size(e)
    ensures Written(Image(rs), Total(rs), Pack(e)) == Image(rs + [e])
    ensures IndexImage(rs) + PackIndex(EntryView(e, Total(rs))) == IndexImage(rs + [e])
  {
    ImageAppend(rs, e);
    IndexImageAppend(rs, e);
  }
}

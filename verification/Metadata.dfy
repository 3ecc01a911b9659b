/** The metadata log: which data files exist (src/metadata_manager.cc,
    include/pedrodb/format/metadata_format.h). */
module Metadata {
  import opened Basics
  import opened Buffers

  // metadata::LogType. Recovery treats every value other than CREATE_FILE as a deletion.
  const CREATE_FILE: byte := 0
  const DELETE_FILE: byte := 1

  const LOG_ENTRY_SIZE: nat := 5

  function PackLogEntry(kind: byte, id: u32): (s: Bytes)
    ensures |s| == LOG_ENTRY_SIZE
  {
    [kind] + U32(id)
  }

  function PackHeader(name: Bytes): (s: Bytes)
  {
    U16(|name| % 0x1_0000) + name
  }

  /** Every byte of the metadata file: the name's length and the name; then five bytes per entry, 0 for a
      created file and 1 for a deleted one, and the file's id, most significant byte first. */
  lemma MetadataLayout(name: Bytes, id: u32)
    ensures PackLogEntry(CREATE_FILE, id) == [0, id / 0x100_0000, id / 0x1_0000 % 0x100, id / 0x100 % 0x100, id % 0x100]
    ensures PackLogEntry(DELETE_FILE, id) == [1, id / 0x100_0000, id / 0x1_0000 % 0x100, id / 0x100 % 0x100, id % 0x100]
    ensures |name| < 0x1_0000 ==> PackHeader(name) == [|name| / 0x100, |name| % 0x100] + name
  {
    U32Bytes(id);
  }

  // ---------------------------------------------------------------- std::set<file_id_t>

  /** std::set iterates in ascending order: it is modelled as its ascending sequence. */
  predicate Ascending(ids: seq<FileId>)
  {
    forall i, j :: 0 <= i < j < |ids| ==> ids[i] < ids[j]
  }

  function Insert(ids: seq<FileId>, id: FileId): (r: seq<FileId>)
  {
    if ids == [] || id < ids[0] then [id] + ids
    else if id == ids[0] then ids
    else [ids[0]] + Insert(ids[1..], id)
  }

  function Erase(ids: seq<FileId>, id: FileId): (r: seq<FileId>)
  {
    if ids == [] then [] else if ids[0] == id then ids[1..] else [ids[0]] + Erase(ids[1..], id)
  }

  lemma AscendingCons(a: FileId, r: seq<FileId>)
    requires Ascending(r) && forall x :: x in r ==> a < x
    ensures Ascending([a] + r)
  {
    var s := [a] + r;
    forall i, j | 0 <= i < j < |s| ensures s[i] < s[j] {
      assert s[j] == r[j - 1] && r[j - 1] in r;
      if i > 0 { assert s[i] == r[i - 1]; }
    }
  }

  lemma AscendingTail(ids: seq<FileId>)
    requires Ascending(ids) && ids != []
    ensures Ascending(ids[1..])
    ensures forall x :: x in ids <==> x == ids[0] || x in ids[1..]
    ensures forall x :: x in ids[1..] ==> ids[0] < x
  {
  }

  lemma {:induction false} InsertElements(ids: seq<FileId>, id: FileId)
    requires Ascending(ids)
    ensures Ascending(Insert(ids, id))
    ensures forall x :: x in Insert(ids, id) <==> x == id || x in ids
  {
    if ids != [] {
      AscendingTail(ids);
      if ids[0] < id {
        InsertElements(ids[1..], id);
        AscendingCons(ids[0], Insert(ids[1..], id));
      } else if id < ids[0] {
        AscendingCons(id, ids);
      }
    }
  }

  lemma {:induction false} EraseElements(ids: seq<FileId>, id: FileId)
    requires Ascending(ids)
    ensures Ascending(Erase(ids, id))
    ensures forall x :: x in Erase(ids, id) <==> x != id && x in ids
  {
    if ids != [] {
      AscendingTail(ids);
      if ids[0] != id {
        EraseElements(ids[1..], id);
        AscendingCons(ids[0], Erase(ids[1..], id));
      }
    }
  }

  lemma {:induction false} InsertLength(ids: seq<FileId>, id: FileId)
    ensures |Insert(ids, id)| <= |ids| + 1
  {
    if ids != [] {
      InsertLength(ids[1..], id);
    }
  }

  lemma InsertPresent(ids: seq<FileId>, id: FileId)
    requires Ascending(ids) && id in ids
    ensures Insert(ids, id) == ids
  {
    hide Ascending, Insert;
    InsertCases(ids, id);
    if ids[0] != id {
      InsertPresent(ids[1..], id);
      assert ids == [ids[0]] + ids[1..];
    }
  }

  lemma InsertCases(ids: seq<FileId>, id: FileId)
    requires Ascending(ids) && id in ids
    ensures Ascending(ids[1..])
    ensures id == ids[0] ==> Insert(ids, id) == ids
    ensures id != ids[0] ==> id in ids[1..] && Insert(ids, id) == [ids[0]] + Insert(ids[1..], id)
  {
  }

  lemma EraseAbsent(ids: seq<FileId>, id: FileId)
    requires id !in ids
    ensures Erase(ids, id) == ids
  {
  }

  // ---------------------------------------------------------------- replay

  function ApplyLogEntry(files: seq<FileId>, kind: byte, id: FileId): (files': seq<FileId>)
  {
    if kind == CREATE_FILE then Insert(files, id) else Erase(files, id)
  }

  lemma ApplyElements(files: seq<FileId>, kind: byte, id: FileId)
    requires Ascending(files)
    ensures Ascending(ApplyLogEntry(files, kind, id))
    ensures forall f :: f in ApplyLogEntry(files, kind, id) ==> f == id || f in files
  {
    InsertElements(files, id);
    EraseElements(files, id);
  }

  /** The log entries replayed over files; None if the bytes end inside an entry. */
  function ReplayEntries(files: seq<FileId>, s: Bytes): (r: Option<seq<FileId>>)
    decreases |s|
  {
    if s == [] then Some(files)
    else if |s| < LOG_ENTRY_SIZE then None
    else ReplayEntries(ApplyLogEntry(files, s[0], FromU32(s[1..5])), s[LOG_ENTRY_SIZE..])
  }

  /** The length of the header at the front of a metadata file, if there is a whole one. */
  function HeaderLength(s: Bytes): (n: Option<nat>)
    ensures n.Some? ==> 2 <= n.value <= |s|
  {
    if |s| < 2 || |s| < 2 + FromU16(s[..2]) then None else Some(2 + FromU16(s[..2]))
  }

  /** What a metadata file says: the database name and the existing files, in order. */
  function Replay(s: Bytes): (r: Option<(Bytes, seq<FileId>)>)
  {
    match HeaderLength(s)
    case None => None
    case Some(n) =>
      match ReplayEntries([], s[n..])
      case None => None
      case Some(files) => Some((s[2..n], files))
  }

  lemma {:induction false} ReplayEntriesAppend(files: seq<FileId>, s: Bytes, kind: byte, id: u32)
    requires ReplayEntries(files, s).Some?
    ensures ReplayEntries(files, s + PackLogEntry(kind, id))
         == Some(ApplyLogEntry(ReplayEntries(files, s).value, kind, id))
    decreases |s|
  {
    var t := PackLogEntry(kind, id);
    if s == [] {
      assert s + t == t && t[1..5] == U32(id);
      U32RoundTrip(id);
    } else {
      var u := s + t;
      assert u[0] == s[0] && u[1..5] == s[1..5] && u[LOG_ENTRY_SIZE..] == s[LOG_ENTRY_SIZE..] + t;
      ReplayEntriesAppend(ApplyLogEntry(files, s[0], FromU32(s[1..5])), s[LOG_ENTRY_SIZE..], kind, id);
    }
  }

  /** Appending one log entry changes what the file says by exactly that entry. */
  lemma ReplayAppend(s: Bytes, kind: byte, id: u32)
    requires Replay(s).Some?
    ensures Replay(s + PackLogEntry(kind, id))
         == Some((Replay(s).value.0, ApplyLogEntry(Replay(s).value.1, kind, id)))
  {
    var t := PackLogEntry(kind, id);
    var n := HeaderLength(s).value;
    assert (s + t)[..2] == s[..2] && (s + t)[2..n] == s[2..n] && (s + t)[n..] == s[n..] + t;
    ReplayEntriesAppend([], s[n..], kind, id);
  }

  lemma {:induction false} ReplayEntriesAscending(files: seq<FileId>, s: Bytes)
    requires Ascending(files) && ReplayEntries(files, s).Some?
    ensures Ascending(ReplayEntries(files, s).value)
    decreases |s|
  {
    if s != [] {
      var id := FromU32(s[1..5]);
      ApplyElements(files, s[0], id);
      ReplayEntriesAscending(ApplyLogEntry(files, s[0], id), s[LOG_ENTRY_SIZE..]);
    }
  }

  lemma ReplayAscending(s: Bytes)
    requires Replay(s).Some?
    ensures Ascending(Replay(s).value.1)
  {
    ReplayEntriesAscending([], s[HeaderLength(s).value..]);
  }

  lemma ReplayHeader(name: Bytes)
    requires |name| < 0x1_0000
    ensures Replay(PackHeader(name)) == Some((name, []))
  {
    hide U16, FromU16, ReplayEntries;
    var s := PackHeader(name);
    U16RoundTrip(|name|);
    NoEntries([]);
    assert s[..2] == U16(|name|) && s[|s|..] == [];
    assert s[2..|s|] == name;
  }

  lemma U16RoundTrip(x: nat)
    requires x < 0x1_0000
    ensures FromU16(U16(x)) == x
  {
  }

  lemma NoEntries(files: seq<FileId>)
    ensures ReplayEntries(files, []) == Some(files)
  {
  }

  // ---------------------------------------------------------------- the manager

  class MetadataManager {
    var name: Bytes
    var files: seq<FileId>
    // The bytes of the metadata file.
    var file: Bytes

    /** The file on disk says exactly what the memory holds. */
    ghost predicate Valid()
      reads this
    {
      && Ascending(files)
      && (forall f :: f in files ==> f < FILE_ID_LIMIT)
      && Replay(file) == Some((name, files))
    }

    constructor (name: Bytes, file: Bytes)
      ensures this.name == name && this.file == file && files == []
    {
      this.name, this.file, files := name, file, [];
    }

    /** Replays an existing file, or creates a database in an empty one. False where the source
        aborts: exactly for a file that does not decode. */
    method Init() returns (ok: bool)
      requires |name| < 0x1_0000 && files == []
      modifies this
      ensures ok <==> old(file) == [] || Replay(old(file)).Some?
      ensures ok ==> Valid()
      ensures if old(file) == [] then file == PackHeader(old(name)) && name == old(name) && files == []
              else file == old(file)
    {
      if file == [] {
        ReplayHeader(name);
        file := PackHeader(name);
        return true;
      }
      ok := Recovery();
    }

    /** Replays the metadata file. False where the source aborts, on bytes that it cannot decode. */
    method Recovery() returns (ok: bool)
      requires files == []
      modifies this
      ensures file == old(file)
      ensures ok <==> Replay(file).Some?
      ensures ok ==> Valid()
    {
      hide ApplyLogEntry, FromU32, FromU16;
      var buffer := new ByteBuffer(file);
      if HeaderLength(file).None? {
        return false;
      }
      var length := buffer.RetrieveU16();
      ghost var n := 2 + length;
      assert file[2..][..length] == file[2..n] && file[2..][length..] == file[n..];
      name := buffer.Retrieve(length);
      while buffer.bytes != []
        invariant file == old(file) && n <= |file|
        invariant fresh(buffer) && Ascending(files) && (forall f :: f in files ==> f < FILE_ID_LIMIT)
        invariant ReplayEntries([], file[n..]) == ReplayEntries(files, buffer.bytes)
        invariant name == file[2..n]
        decreases |buffer.bytes|
      {
        if |buffer.bytes| < LOG_ENTRY_SIZE {
          return false;
        }
        ghost var s := buffer.bytes;
        var kind := buffer.RetrieveU8();
        assert s[1..][..4] == s[1..5] && s[1..][4..] == s[LOG_ENTRY_SIZE..];
        var id := buffer.RetrieveU32();
        ApplyElements(files, kind, id);
        files := ApplyLogEntry(files, kind, id);
      }
      ok := true;
    }

    method GetFiles() returns (ids: seq<FileId>)
      ensures ids == files
    {
      ids := files;
    }

    /** Adds id; an id already present adds no log entry. */
    method CreateFile(id: FileId)
      requires Valid() && id < FILE_ID_LIMIT
      modifies this
      ensures Valid() && name == old(name)
      ensures forall f :: f in files <==> f == id || f in old(files)
      ensures file == if id in old(files) then old(file) else old(file) + PackLogEntry(CREATE_FILE, id)
    {
      if id in files {
        return;
      }
      InsertElements(files, id);
      ReplayAppend(file, CREATE_FILE, id);
      files := Insert(files, id);
      file := file + PackLogEntry(CREATE_FILE, id);
    }

    /** Removes id; an id already absent adds no log entry. */
    method DeleteFile(id: FileId)
      requires Valid()
      modifies this
      ensures Valid() && name == old(name)
      ensures forall f :: f in files <==> f != id && f in old(files)
      ensures file == if id in old(files) then old(file) + PackLogEntry(DELETE_FILE, id) else old(file)
    {
      if id !in files {
        return;
      }
      EraseElements(files, id);
      ReplayAppend(file, DELETE_FILE, id);
      files := Erase(files, id);
      file := file + PackLogEntry(DELETE_FILE, id);
    }
  }

  // ---------------------------------------------------------------- all call sequences

  datatype Call = Creates(id: u32) | Deletes(id: u32)

  function CallLog(files: seq<FileId>, s: Bytes, c: Call): (s': Bytes)
  {
    match c
    case Creates(id) => if id in files then s else s + PackLogEntry(CREATE_FILE, id)
    case Deletes(id) => if id in files then s + PackLogEntry(DELETE_FILE, id) else s
  }

  function CallFiles(files: seq<FileId>, c: Call): (files': seq<FileId>)
  {
    match c
    case Creates(id) => Insert(files, id)
    case Deletes(id) => Erase(files, id)
  }

  function LogAfter(files: seq<FileId>, s: Bytes, calls: seq<Call>): (s': Bytes)
    decreases |calls|
  {
    if calls == [] then s else LogAfter(CallFiles(files, calls[0]), CallLog(files, s, calls[0]), calls[1..])
  }

  /** A file exists after a sequence of calls exactly when the last call about it created it. */
  ghost predicate LastCreated(present: bool, calls: seq<Call>, id: FileId)
    decreases |calls|
  {
    if calls == [] then present
    else LastCreated(if calls[0].id != id then present else calls[0].Creates?, calls[1..], id)
  }

  /** After any sequence of CreateFile and DeleteFile calls the log replays to an ascending list of
      exactly the files whose last call created them. */
  lemma {:induction false} LogReplays(name: Bytes, files: seq<FileId>, s: Bytes, calls: seq<Call>)
    requires Ascending(files) && Replay(s) == Some((name, files))
    ensures var r := Replay(LogAfter(files, s, calls));
            && r.Some? && r.value.0 == name && Ascending(r.value.1)
            && forall id :: id in r.value.1 <==> LastCreated(id in files, calls, id)
    decreases |calls|
  {
    if calls != [] {
      var c := calls[0];
      InsertElements(files, c.id);
      EraseElements(files, c.id);
      if c.Creates? {
        ReplayAppend(s, CREATE_FILE, c.id);
        if c.id in files { InsertPresent(files, c.id); }
      } else {
        ReplayAppend(s, DELETE_FILE, c.id);
        if c.id !in files { EraseAbsent(files, c.id); }
      }
      LogReplays(name, CallFiles(files, c), CallLog(files, s, c), calls[1..]);
      var r := Replay(LogAfter(files, s, calls)).value.1;
      forall id ensures id in r <==> LastCreated(id in files, calls, id) {
        assert id in r <==> LastCreated(id in CallFiles(files, c), calls[1..], id);
      }
    }
  }
}

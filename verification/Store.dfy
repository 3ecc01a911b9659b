/** The store as a state machine over logs: what each operation of DBImpl does to the records in
    the data files and to the memory, and what every run of operations keeps. */
module Store {
  import opened Basics
  import opened RecordFormat
  import opened RecordScan
  import opened Log
  import opened Accounting

  /** The functions the store calls but does not define, and the options it reads. */
  datatype Env = Env(compress: Bytes -> Bytes, uncompress: Bytes -> Bytes, checksum: (Bytes, Bytes) -> u32,
                     compressValue: bool, threshold: nat)
  {
    /** snappy gives back what it was given. */
    ghost predicate Lossless()
    {
      compressValue ==> forall v :: uncompress(compress(v)) == v
    }

    function Stored(value: Bytes): (stored: Bytes)
    {
      if compressValue then compress(value) else value
    }

    function Plain(stored: Bytes): (value: Bytes)
    {
      if compressValue then uncompress(stored) else stored
    }

    /** The record HandlePut writes: an empty value makes it a tombstone. */
    function Record(key: Bytes, value: Bytes): (e: Entry)
    {
      Entry(checksum(key, Stored(value)), if value == [] then DELETE else SET, key, Stored(value), 0)
    }

    predicate Validate(e: Entry)
    {
      e.checksum == checksum(e.key, e.value)
    }
  }

  /** The records of every data file, the active file, the files that have an index file on disk,
      the memory, and max_file_. `uncharged` counts the bytes of each file that are neither live
      nor charged as free: tombstones that removed a key since the store was opened. */
  datatype Store = Store(log: Log, active: FileId, indexed: set<FileId>, mem: Mem, maxFile: FileId,
                         uncharged: map<FileId, nat>)

  // ---------------------------------------------------------------- operations

  /** FileManager::Append: the record goes to the active file if it fits, else to a new file. */
  function Append(s: Store, e: Entry): (r: (Store, Location))
  {
    var id := Target(s.log, s.active, Size(e));
    (s.(log := Appended(s.log, id, e), active := id), EndOf(s.log, id))
  }

  /** DBImpl::HandlePut; Delete is a Put of the empty value. */
  function Put(env: Env, s: Store, key: Bytes, value: Bytes): (r: (Status, Store))
  {
    var e := env.Record(key, value);
    if SizeOf(e) > MAX_FILE_BYTES then (NotSupported, s)
    else
      var (s1, loc) := Append(s, e);
      var (status, mem) := Publish(s1.mem, env.threshold, loc, key, value == [], SizeOf(e));
      (status, s1.(mem := mem, maxFile := if s1.maxFile < loc.id then loc.id else s1.maxFile,
                   uncharged := PublishUncharged(s1.mem, loc, key, value == [], SizeOf(e), s1.uncharged)))
  }

  /** One round of DBImpl::Compact: the i-th record of file f, if the scan sees one, is copied if it
      is live. The file may be the active one, which the copies make longer. */
  function CopyStep(s: Store, f: FileId, i: nat): (s': Store)
  {
    var rs := RecordsOf(s.log, f);
    if i < |Seen(rs)| && rs[i].kind == SET && IsLive(s.mem.indices, rs[i].key, Location(f, Offset(rs, i))) then
      var (s1, loc) := Append(s, rs[i]);
      s1.(mem := PublishCopy(s1.mem, loc, rs[i].key, SizeOf(rs[i])))
    else s
  }

  /** The first n rounds. */
  function CopyUpTo(s: Store, f: FileId, n: nat): (s': Store)
  {
    if n == 0 then s else CopyStep(CopyUpTo(s, f, n - 1), f, n - 1)
  }

  function StartCompact(s: Store, f: FileId): (s': Store)
  {
    s.(mem := s.mem.(states := s.mem.states[f := StateOf(s.mem, f).(state := Compacting)]))
  }

  function DropFile(s: Store, f: FileId): (s': Store)
  {
    s.(log := Removed(s.log, f), indexed := s.indexed - {f},
       mem := s.mem.(states := s.mem.states - {f}), uncharged := s.uncharged - {f})
  }

  /** The state in which the scan of DBImpl::Compact(f) has ended: no file holds more records. */
  function Copied(s: Store, f: FileId): (s': Store)
  {
    CopyUpTo(StartCompact(s, f), f, RECORDS_PER_FILE)
  }

  /** DBImpl::Compact(f). */
  function Compact(s: Store, f: FileId): (s': Store)
  {
    if f in s.log then DropFile(Copied(s, f), f) else s
  }

  /** DBImpl::PollCompactTask. */
  function Polled(m: Mem): (m': Mem)
  {
    Mem(m.indices,
        map f | f in m.states :: if f in m.tasks then m.states[f].(state := Scheduling) else m.states[f],
        [])
  }

  // ---------------------------------------------------------------- invariant

  ghost predicate Wellformed(env: Env, log: Log)
  {
    forall f :: f in log ==> Total(log[f]) <= MAX_FILE_BYTES && Genuine(env, log[f])
  }

  ghost predicate Genuine(env: Env, rs: seq<Entry>)
  {
    forall i :: 0 <= i < |rs| ==> Storable(rs[i]) && env.Validate(rs[i])
  }

  ghost predicate FilesOk(env: Env, s: Store)
  {
    && s.active in s.log && IsLast(s.log, s.active)
    && Wellformed(env, s.log)
    && (forall f :: f in s.indexed ==> f < s.active)
    && s.maxFile <= s.active
  }

  ghost predicate Inv(env: Env, s: Store)
  {
    FilesOk(env, s) && MemOk(s.log, s.mem, env.threshold, s.uncharged)
  }

  /** The index is the one that replaying the data files gives. */
  ghost predicate Durable(s: Store)
  {
    s.mem.indices == Replayed(s.log)
  }

  function StoredAt(log: Log, loc: Location): (v: Bytes)
  {
    match RecordAt(RecordsOf(log, loc.id), loc.offset)
    case None => []
    case Some(e) => e.value
  }

  /** The map a log and an index stand for. */
  function Contents(env: Env, log: Log, indices: map<Bytes, Dir>): (m: map<Bytes, Bytes>)
  {
    map k | k in indices :: env.Plain(StoredAt(log, indices[k].loc))
  }

  function View(env: Env, s: Store): (m: map<Bytes, Bytes>)
  {
    Contents(env, s.log, s.mem.indices)
  }

  /** Some live record of file f ends exactly at the end of the file, where no scan sees it. */
  ghost predicate Blind(s: Store, f: FileId)
  {
    exists k :: k in s.mem.indices && s.mem.indices[k].loc.id == f
             && s.mem.indices[k].loc.offset + s.mem.indices[k].entrySize == MAX_FILE_BYTES
  }

  /** Record i of file f, if it is live. */
  function LiveAt(rs: seq<Entry>, f: FileId, indices: map<Bytes, Dir>, i: nat): (live: seq<Entry>)
    requires i < |rs|
  {
    if rs[i].kind == SET && IsLive(indices, rs[i].key, Location(f, Offset(rs, i))) then [rs[i]] else []
  }

  /** The live records of file f from the i-th on. */
  function LiveRecords(rs: seq<Entry>, f: FileId, indices: map<Bytes, Dir>, i: nat): (live: seq<Entry>)
    decreases |rs| - i
  {
    if i >= |rs| then [] else LiveAt(rs, f, indices, i) + LiveRecords(rs, f, indices, i + 1)
  }

  /** Appending these records round and round, as long as they fit into `room` bytes, fills it exactly. */
  predicate Fills(room: nat, live: seq<Entry>)
    decreases room
  {
    live != [] && Size(live[0]) <= room && (Size(live[0]) == room || Fills(room - Size(live[0]), live[1..] + [live[0]]))
  }

  /** Compacting file f loses nothing. In the active file every copy goes behind the scan and is copied
      again, until one does not fit and the next file becomes active: so some record must be live, and
      no copy may fill the file, where the scan does not see it. */
  ghost predicate Safe(s: Store, f: FileId)
  {
    && !Blind(s, f)
    && (f == s.active ==>
          var rs := RecordsOf(s.log, f);
          var live := LiveRecords(rs, f, s.mem.indices, 0);
          live != [] && Total(rs) <= MAX_FILE_BYTES && !Fills(MAX_FILE_BYTES - Total(rs), live))
  }

  /** Polling marks the files of the queue as scheduled and empties it. Every other file stays as it is,
      and no file's free bytes change. */
  lemma PolledIs(m: Mem, threshold: nat)
    requires Scheduled(m, threshold)
    ensures Polled(m).indices == m.indices && Polled(m).tasks == []
    ensures forall f :: StateOf(Polled(m), f).free == StateOf(m, f).free
    ensures forall f :: f !in m.tasks ==> StateOf(Polled(m), f) == StateOf(m, f)
    ensures forall f :: f in m.tasks ==> StateOf(Polled(m), f).state == Scheduling
  {
  }

  // ---------------------------------------------------------------- what is written

  /** The bytes of the record that a Put appends, its size, and when it is refused: the value is
      compressed first, if the option is set, and it is the compressed size that counts. */
  lemma PutWrites(env: Env, s: Store, key: Bytes, value: Bytes)
    ensures var v := if env.compressValue then env.compress(value) else value;
            var n := HEADER_SIZE + |key| + |v|;
            var (status, s') := Put(env, s, key, value);
            n < 0x1_0000_0000 ==>
              if n > MAX_FILE_BYTES then status == NotSupported && s' == s
              else
                && status != NotSupported
                && s'.active in s'.log && s'.log[s'.active] != []
                && s'.log[s'.active][|s'.log[s'.active]| - 1]
                   == Entry(env.checksum(key, v), if value == [] then DELETE else SET, key, v, 0)
                && (value != [] ==>
                      && key in s'.mem.indices && s'.mem.indices[key].entrySize == n
                      && s'.mem.indices[key].loc.id == s'.active
                      && s'.mem.indices[key].loc.offset + n == Total(s'.log[s'.active]))
  {
    var e := env.Record(key, value);
    if Size(e) <= MAX_FILE_BYTES {
      PutEffect(env, s, key, value);
      TotalAppend(RecordsOf(s.log, Put(env, s, key, value).1.active), e);
    }
  }

  /** What a reader sees of a key: the value of its record, uncompressed if the option is set. */
  lemma ViewIs(env: Env, s: Store, key: Bytes)
    requires key in s.mem.indices && RecordAt(RecordsOf(s.log, s.mem.indices[key].loc.id), s.mem.indices[key].loc.offset).Some?
    ensures var v := RecordAt(RecordsOf(s.log, s.mem.indices[key].loc.id), s.mem.indices[key].loc.offset).value.value;
            key in View(env, s) && View(env, s)[key] == if env.compressValue then env.uncompress(v) else v
  {
  }

  // ---------------------------------------------------------------- Append

  /** Appends go to strictly increasing locations, above every record already in the log. */
  lemma AppendIncreases(env: Env, s: Store, e: Entry, p: Pos)
    requires FilesOk(env, s) && At(s.log, p)
    ensures LocOf(s.log, p).Less(Append(s, e).1)
  {
    var rs := s.log[p.id];
    OffsetMonotone(rs, p.i, |rs|);
    assert rs[..|rs|] == rs;
  }

  lemma GenuineAppend(env: Env, rs: seq<Entry>, e: Entry)
    requires Genuine(env, rs) && Storable(e) && env.Validate(e)
    ensures Genuine(env, rs + [e])
  {
  }

  /** A storable record always finds room: in the active file or, after one rollover, in an empty one. */
  lemma AppendFiles(env: Env, s: Store, e: Entry)
    requires FilesOk(env, s) && Storable(e) && env.Validate(e)
    ensures IsLast(s.log, Append(s, e).0.active) && FilesOk(env, Append(s, e).0)
  {
    hide Total, Size, Genuine, Env.Validate;
    AppendWellformed(env, s, e);
  }

  lemma AppendWellformed(env: Env, s: Store, e: Entry)
    requires FilesOk(env, s) && Storable(e) && env.Validate(e)
    ensures Wellformed(env, Append(s, e).0.log)
  {
    hide Total, Size, Genuine, Env.Validate;
    var id := Target(s.log, s.active, Size(e));
    TotalAppend(RecordsOf(s.log, id), e);
    NothingIsGenuine(env);
    GenuineAppend(env, RecordsOf(s.log, id), e);
    StorableSize(e);
  }

  lemma NothingIsGenuine(env: Env)
    ensures Genuine(env, []) && Total([]) == 0
  {
  }

  lemma StorableSize(e: Entry)
    requires Storable(e)
    ensures Size(e) <= MAX_FILE_BYTES
  {
  }

  lemma StoredAtAppended(log: Log, id: FileId, e: Entry, loc: Location)
    requires RecordAt(RecordsOf(log, loc.id), loc.offset).Some?
    ensures StoredAt(Appended(log, id, e), loc) == StoredAt(log, loc)
  {
    RecordAtAppend(RecordsOf(log, id), e, loc.offset);
  }

  lemma ContentsSame(env: Env, log: Log, log': Log, a: map<Bytes, Dir>, b: map<Bytes, Dir>)
    requires a.Keys == b.Keys
    requires forall k :: k in a ==> StoredAt(log, a[k].loc) == StoredAt(log', b[k].loc)
    ensures Contents(env, log, a) == Contents(env, log', b)
  {
  }

  lemma ContentsAppended(env: Env, log: Log, id: FileId, e: Entry, indices: map<Bytes, Dir>)
    requires Sound(log, indices)
    ensures Contents(env, Appended(log, id, e), indices) == Contents(env, log, indices)
  {
    forall k | k in indices
      ensures StoredAt(Appended(log, id, e), indices[k].loc) == StoredAt(log, indices[k].loc)
    {
      assert SoundAt(log, k, indices[k]);
      StoredAtAppended(log, id, e, indices[k].loc);
    }
    ContentsSame(env, Appended(log, id, e), log, indices, indices);
  }

  lemma StoredAtEnd(log: Log, id: FileId, e: Entry)
    ensures StoredAt(Appended(log, id, e), EndOf(log, id)) == e.value
  {
    RecordAtAppend(RecordsOf(log, id), e, Total(RecordsOf(log, id)));
  }

  /** Pointing the record's key at it maps the key to the record's value. */
  lemma ContentsMoved(env: Env, log: Log, id: FileId, e: Entry, indices: map<Bytes, Dir>)
    requires Sound(log, indices)
    ensures Contents(env, Appended(log, id, e), indices[e.key := Dir(Size(e), EndOf(log, id))])
         == Contents(env, log, indices)[e.key := env.Plain(e.value)]
  {
    StoredAtEnd(log, id, e);
    forall k | k in indices
      ensures StoredAt(Appended(log, id, e), indices[k].loc) == StoredAt(log, indices[k].loc)
    {
      assert SoundAt(log, k, indices[k]);
      StoredAtAppended(log, id, e, indices[k].loc);
    }
    ContentsUpdated(env, log, Appended(log, id, e), indices, e.key, Dir(Size(e), EndOf(log, id)), e.value);
  }

  lemma ContentsUpdated(env: Env, log: Log, log': Log, m: map<Bytes, Dir>, k0: Bytes, d: Dir, v: Bytes)
    requires forall k :: k in m ==> StoredAt(log', m[k].loc) == StoredAt(log, m[k].loc)
    requires StoredAt(log', d.loc) == v
    ensures Contents(env, log', m[k0 := d]) == Contents(env, log, m)[k0 := env.Plain(v)]
  {
  }

  lemma ContentsDropped(env: Env, log: Log, indices: map<Bytes, Dir>, k: Bytes)
    ensures Contents(env, log, indices - {k}) == Contents(env, log, indices) - {k}
  {
  }

  // ---------------------------------------------------------------- Put and Delete

  /** What a Put or Delete of a record that fits does to the index. */
  lemma PutEffect(env: Env, s: Store, key: Bytes, value: Bytes)
    requires Size(env.Record(key, value)) <= MAX_FILE_BYTES
    ensures var e := env.Record(key, value);
            var (status, s') := Put(env, s, key, value);
            && s'.log == Appended(s.log, s'.active, e) && s'.active == Target(s.log, s.active, Size(e))
            && s'.mem == Publish(s.mem, env.threshold, EndOf(s.log, s'.active), key, value == [], Size(e)).1
            && s'.mem.indices == (if value == [] then s.mem.indices - {key}
                                  else s.mem.indices[key := Dir(Size(e), EndOf(s.log, s'.active))])
            && status == (if value == [] && key !in s.mem.indices then NotFound else Ok)
            && s'.uncharged == PublishUncharged(s.mem, EndOf(s.log, s'.active), key, value == [], Size(e), s.uncharged)
  {
    var e := env.Record(key, value);
    PublishEffect(s.mem, env.threshold, EndOf(s.log, Target(s.log, s.active, Size(e))), key, value == [], Size(e));
  }

  lemma PutKeepsInv(env: Env, s: Store, key: Bytes, value: Bytes)
    requires Inv(env, s) && |key| < 0x100 && Size(env.Record(key, value)) < 0x1_0000_0000
    ensures Inv(env, Put(env, s, key, value).1)
  {
    hide MemOk, Genuine, Publish, PublishUncharged;
    var e := env.Record(key, value);
    if Size(e) <= MAX_FILE_BYTES {
      var s' := Put(env, s, key, value).1;
      PutEffect(env, s, key, value);
      AppendFiles(env, s, e);
      assert FilesOk(env, s');
      PublishKeeps(s.log, s'.active, e, s.mem, env.threshold, s.uncharged);
    }
  }

  /** A Put stores the value, a Put of the empty value (a Delete) removes the key, and the status
      tells a Delete of an absent key apart. A record above the file size changes nothing. */
  lemma PutUpdatesView(env: Env, s: Store, key: Bytes, value: Bytes)
    requires Inv(env, s) && env.Lossless() && Size(env.Record(key, value)) < 0x1_0000_0000
    ensures var (status, s') := Put(env, s, key, value);
            if Size(env.Record(key, value)) > MAX_FILE_BYTES then status == NotSupported && s' == s
            else if value == [] then
              View(env, s') == View(env, s) - {key} && status == if key in View(env, s) then Ok else NotFound
            else View(env, s') == View(env, s)[key := value] && status == Ok
  {
    var e := env.Record(key, value);
    if Size(e) <= MAX_FILE_BYTES {
      PutEffect(env, s, key, value);
      var id := Target(s.log, s.active, Size(e));
      ContentsAppended(env, s.log, id, e, s.mem.indices);
      ContentsMoved(env, s.log, id, e, s.mem.indices);
      ContentsDropped(env, Appended(s.log, id, e), s.mem.indices, key);
    }
  }

  /** A Put is on disk at once: replaying the files gives the index it leaves. */
  lemma PutKeepsDurable(env: Env, s: Store, key: Bytes, value: Bytes)
    requires Inv(env, s) && Durable(s) && Size(env.Record(key, value)) < 0x1_0000_0000
    ensures Durable(Put(env, s, key, value).1)
  {
    var e := env.Record(key, value);
    if Size(e) <= MAX_FILE_BYTES {
      PutEffect(env, s, key, value);
      AppendedReplayed(s.log, Target(s.log, s.active, Size(e)), e);
    }
  }
}

/** Writers and compactions running at the same time. HandlePut appends its record and publishes it
    in two critical sections, and every iteration of Compact checks, appends and publishes in three
    (src/db_impl.cc), so other operations can come in between. A file is compacted while it is sealed or
    while it is still written to. Index entries are positions here; a
    position is a location and a size in one. */
module Interleaving {
  import opened Basics
  import opened RecordFormat
  import opened RecordScan
  import opened Log

  // What Compact has done with the record it is at; Ended if its scan has seen no further record.
  datatype Phase = Scanning | Checked | Copied(at: Pos) | Ended
  {
    predicate AtWork()
    {
      Checked? || Copied?
    }
  }

  // How far a running Compact has got in its file.
  datatype Cursor = Cursor(next: nat, phase: Phase)

  // A record that a writer has appended and not yet published.
  datatype Pending = Pending(e: Entry, at: Pos)

  /** The files, the index, the records that writers have appended and not yet published, and the
      running compactions. `model` is what the published Puts and Deletes make of a map. */
  datatype Shared = Shared(log: Log, active: FileId, index: map<Bytes, Pos>, model: map<Bytes, Bytes>,
                           writers: map<Bytes, Pending>, compactions: map<FileId, Cursor>)

  datatype Step =
    | AppendWrite(e: Entry)
    | PublishWrite(key: Bytes)
    | StartCompact(file: FileId)
    | CheckRecord(file: FileId)
    | CopyRecord(file: FileId)
    | PublishCopy(file: FileId)
    | EndScan(file: FileId)
    | RemoveFile(file: FileId)

  /** The compaction is at a record that its scan sees. */
  predicate AtRecord(s: Shared, f: FileId)
  {
    f in s.compactions && f in s.log && s.compactions[f].next < |Seen(s.log[f])|
  }

  function Current(s: Shared, f: FileId): (e: Entry)
    requires AtRecord(s, f)
  {
    Rec(s.log, Pos(f, s.compactions[f].next))
  }

  /** A writer, or a compaction between its check and its publish, is at work on the key. */
  ghost predicate Busy(s: Shared, key: Bytes)
  {
    key in s.writers
    || exists f :: AtRecord(s, f) && s.compactions[f].phase.AtWork() && Current(s, f).key == key
  }

  /** The step can be taken where the operations stand. */
  predicate Possible(s: Shared, step: Step)
  {
    match step
    case AppendWrite(e) => Storable(e)
    case PublishWrite(key) => key in s.writers
    case StartCompact(f) => f in s.log && f !in s.compactions
    case CheckRecord(f) => AtRecord(s, f) && s.compactions[f].phase == Scanning
    case CopyRecord(f) => AtRecord(s, f) && s.compactions[f].phase == Checked
    case PublishCopy(f) => AtRecord(s, f) && s.compactions[f].phase.Copied?
    case EndScan(f) => f in s.log && f in s.compactions && s.compactions[f] == Cursor(|Seen(s.log[f])|, Scanning)
    case RemoveFile(f) => f in s.log && f in s.compactions && s.compactions[f].phase == Ended
  }

  /** The step would begin an operation on a key that another operation is at work on. */
  ghost predicate Overlaps(s: Shared, step: Step)
    requires Possible(s, step)
  {
    match step
    case AppendWrite(e) => Busy(s, e.key)
    case CheckRecord(f) => Current(s, f).kind == SET && Busy(s, Current(s, f).key)
    case _ => false
  }

  /** Something still needs the file: it is appended to, or an index entry, a Set that is not published
      yet or a copy that is not published yet lies in it. */
  ghost predicate Needed(s: Shared, f: FileId)
  {
    || f == s.active
    || (exists k :: k in s.index && s.index[k].id == f)
    || (exists k :: k in s.writers && s.writers[k].e.kind == SET && s.writers[k].at.id == f)
    || (exists g :: g in s.compactions && s.compactions[g].phase.Copied? && s.compactions[g].phase.at.id == f)
  }

  /** The step starts no operation on a key that another is at work on, and removes no file that is
      still needed. */
  ghost predicate Orderly(s: Shared, step: Step)
    requires Possible(s, step)
  {
    !Overlaps(s, step) && (step.RemoveFile? ==> !Needed(s, step.file))
  }

  /** The record at p is what its key's index entry, Set that is not published yet, or copy that is not
      published yet is about. */
  ghost predicate NeededAt(s: Shared, p: Pos)
    requires At(s.log, p)
  {
    var k := Rec(s.log, p).key;
    || (k in s.index && s.index[k] == p)
    || (k in s.writers && s.writers[k].e.kind == SET && s.writers[k].at == p)
    || (exists g :: AtRecord(s, g) && s.compactions[g].phase == Copied(p))
  }

  /** The scan of the file may end here: the file is not appended to any more, and the record that no
      scan sees, if the file is full, is not needed. */
  ghost predicate Complete(s: Shared, f: FileId)
    requires f in s.log
  {
    f < s.active && (|Seen(s.log[f])| < |s.log[f]| ==> !NeededAt(s, Pos(f, |Seen(s.log[f])|)))
  }

  /** The step starts no operation on a key that another is at work on, and ends no scan that has to
      miss something. */
  ghost predicate Clean(s: Shared, step: Step)
    requires Possible(s, step)
  {
    !Overlaps(s, step) && (step.EndScan? ==> Complete(s, step.file))
  }

  /** The file an append goes to, and the position it gets there. */
  function Place(s: Shared, e: Entry): (p: Pos)
  {
    var id := Target(s.log, s.active, Size(e));
    Pos(id, |RecordsOf(s.log, id)|)
  }

  function Append(s: Shared, e: Entry): (s': Shared)
  {
    s.(log := Appended(s.log, Place(s, e).id, e), active := Place(s, e).id)
  }

  function Exec(s: Shared, step: Step): (s': Shared)
    requires Possible(s, step)
  {
    match step
    case AppendWrite(e) => Append(s, e).(writers := s.writers[e.key := Pending(e, Place(s, e))])
    case PublishWrite(key) =>
      var Pending(e, p) := s.writers[key];
      s.(writers := s.writers - {key},
         index := if e.kind == SET then s.index[key := p] else s.index - {key},
         model := if e.kind == SET then s.model[key := e.value] else s.model - {key})
    case StartCompact(f) => s.(compactions := s.compactions[f := Cursor(0, Scanning)])
    case CheckRecord(f) =>
      var c := s.compactions[f];
      var e := Current(s, f);
      var live := e.kind == SET && e.key in s.index && s.index[e.key] == Pos(f, c.next);
      s.(compactions := s.compactions[f := if live then c.(phase := Checked) else Cursor(c.next + 1, Scanning)])
    case CopyRecord(f) =>
      var e := Current(s, f);
      Append(s, e).(compactions := s.compactions[f := s.compactions[f].(phase := Copied(Place(s, e)))])
    case PublishCopy(f) =>
      var c := s.compactions[f];
      var key := Current(s, f).key;
      var newer := key in s.index && s.index[key].Less(c.phase.at);
      s.(compactions := s.compactions[f := Cursor(c.next + 1, Scanning)],
         index := if newer then s.index[key := c.phase.at] else s.index)
    case EndScan(f) => s.(compactions := s.compactions[f := s.compactions[f].(phase := Ended)])
    case RemoveFile(f) => s.(log := Removed(s.log, f), compactions := s.compactions - {f})
  }

  // ---------------------------------------------------------------- invariant

  /** p has not been passed by a compaction of its file. */
  predicate Ahead(s: Shared, p: Pos)
  {
    p.id in s.compactions ==> p.i >= s.compactions[p.id].next
  }

  predicate Indexed(s: Shared, k: Bytes)
    requires k in s.index
  {
    var p := s.index[k];
    && At(s.log, p) && Rec(s.log, p).key == k && Rec(s.log, p).kind == SET && Ahead(s, p)
    && k in s.model && s.model[k] == Rec(s.log, p).value
  }

  /** A Set in flight is its key's newest record. A tombstone in flight may even be gone already,
      with a compacted file: Compact does not look at tombstones. */
  ghost predicate InFlight(s: Shared, k: Bytes)
    requires k in s.writers
  {
    var Pending(e, p) := s.writers[k];
    && e.key == k && (e.kind == SET || e.kind == DELETE)
    && (e.kind == SET ==> At(s.log, p) && Newest(s.log, p) && Rec(s.log, p) == e && Ahead(s, p))
  }

  /** A compaction between check and publish: its record is the key's current one, no writer is at
      work on the key, and its copy, if made, is newer and holds the same. */
  ghost predicate Compacting(s: Shared, f: FileId)
    requires f in s.compactions
  {
    var c := s.compactions[f];
    && f in s.log && c.next <= |Seen(s.log[f])|
    && (c.phase.AtWork() ==>
          && AtRecord(s, f)
          && var e := Current(s, f);
             e.kind == SET && e.key in s.index && s.index[e.key] == Pos(f, c.next) && e.key !in s.writers)
    && (c.phase.Copied? ==>
          && At(s.log, c.phase.at) && Newest(s.log, c.phase.at) && Rec(s.log, c.phase.at) == Current(s, f)
          && Pos(f, c.next).Less(c.phase.at) && Ahead(s, c.phase.at))
  }

  ghost predicate StorableLog(log: Log)
  {
    forall f :: f in log ==> AllStorable(log[f])
  }

  /** What holds in memory in every run without overlaps: the index stands for the map the completed
      operations make, and nothing at work points behind a compaction's cursor. */
  ghost predicate MemInv(s: Shared)
  {
    && s.active in s.log && IsLast(s.log, s.active) && StorableLog(s.log)
    && s.index.Keys == s.model.Keys
    && (forall k :: k in s.index ==> Indexed(s, k))
    && (forall k :: k in s.writers ==> InFlight(s, k))
    && (forall f :: f in s.compactions ==> Compacting(s, f))
  }

  /** The copy at p of key k has been appended and is about to be published. */
  ghost predicate CopyPending(s: Shared, k: Bytes, p: Pos)
  {
    exists f :: AtRecord(s, f) && s.compactions[f].phase == Copied(p) && Current(s, f).key == k
  }

  /** Where replaying the files would point a key that no writer is at work on: to its index entry,
      or to the copy of it. */
  ghost predicate OnDisk(s: Shared, k: Bytes)
  {
    var w := Winners(s.log);
    && (k in w <==> k in s.index)
    && (k in w ==> w[k] == s.index[k] || CopyPending(s, k, w[k]))
  }

  /** What holds of the files: keys without a writer at work replay to their index entries, and a key
      whose tombstone is in flight replays to nothing. */
  ghost predicate DiskInv(s: Shared)
  {
    && (forall k :: k !in s.writers ==> OnDisk(s, k))
    && (forall k :: k in s.writers && s.writers[k].e.kind == DELETE ==> k !in Winners(s.log))
  }

  // ---------------------------------------------------------------- appends

  /** Files only grow, and records stay visible. */
  ghost predicate Longer(a: Log, b: Log)
  {
    forall f :: f in a ==> f in b && a[f] <= b[f] && |Seen(a[f])| <= |Seen(b[f])|
  }

  lemma AppendedLonger(log: Log, id: FileId, e: Entry)
    ensures Longer(log, Appended(log, id, e))
  {
    hide Total;
  }

  lemma AppendFiles(s: Shared, e: Entry)
    requires s.active in s.log && IsLast(s.log, s.active) && StorableLog(s.log) && Storable(e)
    ensures var s' := Append(s, e);
            && s'.active in s'.log && IsLast(s'.log, s'.active) && StorableLog(s'.log)
            && s.active <= s'.active == Place(s, e).id && IsLast(s.log, s'.active)
  {
    hide Total, Size, Storable;
    AllStorableAppend(RecordsOf(s.log, Place(s, e).id), e);
  }

  /** What an append leaves of every other key: its records, their order and its newest one. */
  lemma AppendKeeps(s: Shared, e: Entry)
    requires s.active in s.log && IsLast(s.log, s.active) && StorableLog(s.log) && Storable(e)
    ensures var s', top := Append(s, e), Place(s, e);
            && s'.active in s'.log && IsLast(s'.log, s'.active) && StorableLog(s'.log) && s.active <= s'.active == top.id
            && At(s'.log, top) && Newest(s'.log, top) && Rec(s'.log, top) == e && !At(s.log, top)
            && (forall p :: At(s.log, p) ==> At(s'.log, p) && Rec(s'.log, p) == Rec(s.log, p) && p.Less(top))
            && (forall p :: Newest(s.log, p) && Rec(s.log, p).key != e.key ==> Newest(s'.log, p))
            && Longer(s.log, s'.log)
  {
    hide Newest, Longer, StorableLog, IsLast, Target, Appended, Storable;
    var id := Place(s, e).id;
    AppendFiles(s, e);
    AppendedPositions(s.log, id, e);
    AppendedNewest(s.log, id, e);
    AppendedLonger(s.log, id, e);
  }

  /** No scan has passed the place of the next record. */
  lemma PlaceIsAhead(s: Shared, e: Entry)
    requires MemInv(s)
    ensures Ahead(s, Place(s, e))
  {
    hide Indexed, InFlight, StorableLog, Target, Newest;
    var id := Place(s, e).id;
    if id in s.compactions { assert Compacting(s, id); }
  }

  lemma AppendWriteMem(s: Shared, e: Entry)
    requires MemInv(s) && Possible(s, AppendWrite(e)) && !Overlaps(s, AppendWrite(e))
    ensures MemInv(Exec(s, AppendWrite(e)))
  {
    hide Newest, StorableLog, Seen, Compacting, Append, Place;
    var s' := Exec(s, AppendWrite(e));
    AppendKeeps(s, e);
    AppendOnly(s, e);
    PlaceIsAhead(s, e);
    forall k | k in s'.index ensures Indexed(s', k) { assert Indexed(s, k); }
    forall k | k in s'.writers ensures InFlight(s', k) {
      if k != e.key {
        assert InFlight(s, k);
        if s.writers[k].e.kind == SET { assert Rec(s.log, s.writers[k].at).key == k; }
      }
    }
    forall f | f in s'.compactions ensures Compacting(s', f) { AppendWriteOthers(s, e, f); }
  }

  lemma AppendWriteOthers(s: Shared, e: Entry, f: FileId)
    requires MemInv(s) && Possible(s, AppendWrite(e)) && !Overlaps(s, AppendWrite(e)) && f in s.compactions
    ensures Compacting(Exec(s, AppendWrite(e)), f)
  {
    hide Newest, StorableLog, Seen, Indexed, InFlight, Append, Place;
    assert Compacting(s, f);
    AppendKeeps(s, e);
    AppendOnly(s, e);
    if s.compactions[f].phase.AtWork() { assert AtRecord(s, f) && Current(s, f).key != e.key; }
  }

  lemma CopyRecordMem(s: Shared, g: FileId)
    requires MemInv(s) && Possible(s, CopyRecord(g))
    ensures MemInv(Exec(s, CopyRecord(g)))
  {
    hide Newest, StorableLog, Seen, Compacting, Append, Place;
    var s' := Exec(s, CopyRecord(g));
    var e := Current(s, g);
    CurrentIs(s, g);
    AppendKeeps(s, e);
    AppendOnly(s, e);
    forall k | k in s'.index ensures Indexed(s', k) { assert Indexed(s, k); }
    forall k | k in s'.writers ensures InFlight(s', k) {
      assert InFlight(s, k);
      if s.writers[k].e.kind == SET { assert Rec(s.log, s.writers[k].at).key == k; }
    }
    forall f | f in s'.compactions ensures Compacting(s', f) { CopyRecordOthers(s, g, f); }
  }

  lemma CurrentIs(s: Shared, g: FileId)
    requires MemInv(s) && Possible(s, CopyRecord(g))
    ensures Storable(Current(s, g)) && Current(s, g).key !in s.writers
  {
    hide Newest, Indexed, InFlight, Seen;
    assert Compacting(s, g);
    StorableAt(s.log, g, s.compactions[g].next);
  }

  lemma CopyRecordOthers(s: Shared, g: FileId, f: FileId)
    requires MemInv(s) && Possible(s, CopyRecord(g)) && f in s.compactions
    ensures Compacting(Exec(s, CopyRecord(g)), f)
  {
    hide Newest, StorableLog, Seen, Indexed, InFlight, Append, Place;
    assert Compacting(s, g) && Compacting(s, f);
    CurrentIs(s, g);
    AppendKeeps(s, Current(s, g));
    AppendOnly(s, Current(s, g));
    PlaceIsAhead(s, Current(s, g));
    if f != g && s.compactions[f].phase.AtWork() { assert Current(s, f).key != Current(s, g).key; }
  }

  lemma AppendOnly(s: Shared, e: Entry)
    ensures Append(s, e) == s.(log := Append(s, e).log, active := Append(s, e).active)
  {
  }

  lemma StorableAt(log: Log, f: FileId, i: nat)
    requires StorableLog(log) && f in log && i < |log[f]|
    ensures Storable(log[f][i])
  {
    assert AllStorable(log[f]);
  }

  // ---------------------------------------------------------------- publishing, scanning, removing

  lemma PublishWriteMem(s: Shared, key: Bytes)
    requires MemInv(s) && Possible(s, PublishWrite(key))
    ensures MemInv(Exec(s, PublishWrite(key)))
  {
    hide StorableLog, Seen;
    var s' := Exec(s, PublishWrite(key));
    assert InFlight(s, key);
    forall k | k in s'.index ensures Indexed(s', k) { if k != key { assert Indexed(s, k); } }
    forall k | k in s'.writers ensures InFlight(s', k) { assert InFlight(s, k); }
    forall f | f in s'.compactions ensures Compacting(s', f) { assert Compacting(s, f); }
  }

  lemma StartCompactMem(s: Shared, f: FileId)
    requires MemInv(s) && Possible(s, StartCompact(f))
    ensures MemInv(Exec(s, StartCompact(f)))
  {
    hide Newest, StorableLog, Seen;
    var s' := Exec(s, StartCompact(f));
    forall k | k in s'.index ensures Indexed(s', k) { assert Indexed(s, k); }
    forall k | k in s'.writers ensures InFlight(s', k) {
      assert InFlight(s, k);
      assert s.writers[k].e.kind == SET ==> Ahead(s', s.writers[k].at);
    }
    forall g | g in s'.compactions ensures Compacting(s', g) { if g != f { assert Compacting(s, g); } }
  }

  lemma CheckRecordMem(s: Shared, f: FileId)
    requires MemInv(s) && Possible(s, CheckRecord(f)) && !Overlaps(s, CheckRecord(f))
    ensures MemInv(Exec(s, CheckRecord(f)))
  {
    hide Newest, StorableLog, Seen;
    var s' := Exec(s, CheckRecord(f));
    var e := Current(s, f);
    assert Compacting(s, f);
    forall k | k in s'.index ensures Indexed(s', k) { assert Indexed(s, k); }
    forall k | k in s'.writers ensures InFlight(s', k) {
      assert InFlight(s, k);
      assert s.writers[k].e.kind == SET && s.writers[k].at == Pos(f, s.compactions[f].next) ==> e.key == k;
    }
    forall g | g in s'.compactions ensures Compacting(s', g) {
      assert Compacting(s, g);
      if g != f && s.compactions[g].phase.Copied? { assert AtRecord(s, g); }
    }
  }

  lemma PublishCopyMem(s: Shared, f: FileId)
    requires MemInv(s) && Possible(s, PublishCopy(f))
    ensures MemInv(Exec(s, PublishCopy(f)))
  {
    hide StorableLog, Seen, Compacting;
    var s' := Exec(s, PublishCopy(f));
    var key := Current(s, f).key;
    CopyIs(s, f);
    forall k | k in s'.index ensures Indexed(s', k) { assert Indexed(s, k); }
    forall k | k in s'.writers ensures InFlight(s', k) { assert InFlight(s, k); }
    forall g | g in s'.compactions ensures Compacting(s', g) { PublishCopyOthers(s, f, g); }
  }

  /** What a copy that is about to be published is. */
  lemma CopyIs(s: Shared, f: FileId)
    requires MemInv(s) && Possible(s, PublishCopy(f))
    ensures var key, at := Current(s, f).key, s.compactions[f].phase.at;
            && Current(s, f).kind == SET && key in s.index && Indexed(s, key) && s.index[key] == Pos(f, s.compactions[f].next)
            && key !in s.writers && At(s.log, at) && Rec(s.log, at) == Current(s, f) && s.index[key].Less(at) && Ahead(s, at)
  {
    hide Newest, InFlight, Seen;
    assert Compacting(s, f);
  }

  lemma PublishCopyOthers(s: Shared, f: FileId, g: FileId)
    requires MemInv(s) && Possible(s, PublishCopy(f)) && g in s.compactions
    ensures Compacting(Exec(s, PublishCopy(f)), g)
  {
    hide Newest, StorableLog, Seen, Indexed, InFlight;
    assert Compacting(s, g) && Compacting(s, f);
    if g != f && s.compactions[g].phase.AtWork() { assert Current(s, g).key != Current(s, f).key; }
  }

  lemma EndScanMem(s: Shared, f: FileId)
    requires MemInv(s) && Possible(s, EndScan(f))
    ensures MemInv(Exec(s, EndScan(f)))
  {
    hide Newest, StorableLog, Seen;
    var s' := Exec(s, EndScan(f));
    forall k | k in s'.index ensures Indexed(s', k) { assert Indexed(s, k); }
    forall k | k in s'.writers ensures InFlight(s', k) { assert InFlight(s, k); }
    forall g | g in s'.compactions ensures Compacting(s', g) {
      assert Compacting(s, g);
      if s.compactions[g].phase.AtWork() { assert AtRecord(s, g); }
    }
  }

  lemma UnneededGoes(s: Shared, f: FileId)
    requires MemInv(s) && Possible(s, RemoveFile(f)) && !Needed(s, f)
    ensures MemInv(Exec(s, RemoveFile(f)))
  {
    hide Newest, Seen;
    var s' := Exec(s, RemoveFile(f));
    forall k | k in s'.index ensures Indexed(s', k) { assert Indexed(s, k); }
    forall k | k in s'.writers ensures InFlight(s', k) {
      assert InFlight(s, k);
      if s.writers[k].e.kind == SET { RemovedNewest(s.log, f, s.writers[k].at); }
    }
    forall g | g in s'.compactions ensures Compacting(s', g) {
      assert Compacting(s, g);
      if s.compactions[g].phase.Copied? { RemovedNewest(s.log, f, s.compactions[g].phase.at); }
    }
  }

  lemma NeededIsMissed(s: Shared, f: FileId)
    requires MemInv(s) && Possible(s, RemoveFile(f)) && Needed(s, f)
    ensures !MemInv(Exec(s, RemoveFile(f)))
  {
    hide Newest, Seen, StorableLog;
    var s' := Exec(s, RemoveFile(f));
    if k :| k in s.index && s.index[k].id == f {
      assert !Indexed(s', k);
    } else if k :| k in s.writers && s.writers[k].e.kind == SET && s.writers[k].at.id == f {
      assert !InFlight(s', k);
    } else if f != s.active {
      var g :| g in s.compactions && s.compactions[g].phase.Copied? && s.compactions[g].phase.at.id == f;
      assert !Compacting(s', g);
    }
  }

  /** A compacted file can be removed exactly when nothing needs it any more. */
  lemma RemoveFileMem(s: Shared, f: FileId)
    requires MemInv(s) && Possible(s, RemoveFile(f))
    ensures MemInv(Exec(s, RemoveFile(f))) <==> !Needed(s, f)
  {
    hide MemInv, Needed;
    if Needed(s, f) { NeededIsMissed(s, f); } else { UnneededGoes(s, f); }
  }

  lemma StepKeepsMem(s: Shared, step: Step)
    requires MemInv(s) && Possible(s, step) && Orderly(s, step)
    ensures MemInv(Exec(s, step))
  {
    hide MemInv, Exec, Needed;
    match step
    case AppendWrite(e) => AppendWriteMem(s, e);
    case PublishWrite(key) => PublishWriteMem(s, key);
    case StartCompact(f) => StartCompactMem(s, f);
    case CheckRecord(f) => CheckRecordMem(s, f);
    case CopyRecord(f) => CopyRecordMem(s, f);
    case PublishCopy(f) => PublishCopyMem(s, f);
    case EndScan(f) => EndScanMem(s, f);
    case RemoveFile(f) => RemoveFileMem(s, f);
  }

  // ---------------------------------------------------------------- the end of a scan

  /** Whatever still lies in a file whose scan has come to its end lies where no scan sees it. */
  lemma LeftBehind(s: Shared, f: FileId, p: Pos)
    requires MemInv(s) && Possible(s, EndScan(f)) && At(s.log, p) && p.id == f && Ahead(s, p)
    ensures p == Pos(f, |Seen(s.log[f])|)
  {
    hide MemInv, Seen;
  }

  lemma NeededIsUnseen(s: Shared, f: FileId)
    requires MemInv(s) && Possible(s, EndScan(f)) && f != s.active && Needed(s, f)
    ensures |Seen(s.log[f])| < |s.log[f]| && NeededAt(s, Pos(f, |Seen(s.log[f])|))
  {
    hide MemInv, Seen, Newest;
    if k :| k in s.index && s.index[k].id == f {
      MemAt(s, k);
      LeftBehind(s, f, s.index[k]);
    } else if k :| k in s.writers && s.writers[k].e.kind == SET && s.writers[k].at.id == f {
      MemAt(s, k);
      LeftBehind(s, f, s.writers[k].at);
    } else {
      var g :| g in s.compactions && s.compactions[g].phase.Copied? && s.compactions[g].phase.at.id == f;
      CompactingAt(s, g);
      LeftBehind(s, f, s.compactions[g].phase.at);
    }
  }

  lemma SealedBelow(s: Shared, f: FileId)
    requires MemInv(s) && f in s.log
    ensures f <= s.active
  {
  }

  /** When a scan has come to its end, every record it has passed is needed no more: the file is needed
      exactly if it is still appended to, or if the one record that no scan sees is. */
  lemma EndScanIs(s: Shared, f: FileId)
    requires MemInv(s) && Possible(s, EndScan(f))
    ensures Complete(s, f) <==> !Needed(s, f)
  {
    hide MemInv, Seen;
    SealedBelow(s, f);
    if f < s.active && Needed(s, f) { NeededIsUnseen(s, f); }
  }

  /** A scan ended and its file removed at once keep the index exactly if the scan was complete. */
  lemma EndThenRemove(s: Shared, f: FileId)
    requires MemInv(s) && Possible(s, EndScan(f))
    ensures var t := Exec(s, EndScan(f));
            Possible(t, RemoveFile(f)) && (MemInv(Exec(t, RemoveFile(f))) <==> Complete(s, f))
  {
    EndedNeeds(s, f, f);
    hide MemInv, Seen, Needed, Complete;
    EndScanIs(s, f);
    EndScanMem(s, f);
    RemoveFileMem(Exec(s, EndScan(f)), f);
  }

  lemma EndedNeeds(s: Shared, f: FileId, g: FileId)
    requires Possible(s, EndScan(f))
    ensures Needed(Exec(s, EndScan(f)), g) <==> Needed(s, g)
  {
    hide Seen;
    var t := Exec(s, EndScan(f));
    assert forall h :: h in s.compactions && s.compactions[h].phase.Copied? ==> h != f && t.compactions[h] == s.compactions[h];
  }

  /** Nothing needs a file whose scan has ended. */
  ghost predicate EndsClean(s: Shared)
  {
    forall f :: f in s.compactions && s.compactions[f].phase == Ended ==> !Needed(s, f)
  }

  lemma AppendKeepsUnneeded(s: Shared, e: Entry, f: FileId)
    requires f < s.active
    ensures f < Place(s, e).id && Append(s, e).active == Place(s, e).id
  {
    hide Total;
  }

  /** A sealed file that nothing needs stays so, whatever happens. */
  lemma StaysUnneeded(s: Shared, step: Step, f: FileId)
    requires Possible(s, step) && f < s.active && !Needed(s, f)
    ensures !Needed(Exec(s, step), f) && f < Exec(s, step).active
  {
    hide Seen, Place, Append;
    match step
    case AppendWrite(e) => AppendKeepsUnneeded(s, e, f); AppendOnly(s, e);
    case PublishWrite(key) =>
    case StartCompact(g) =>
    case CheckRecord(g) =>
    case CopyRecord(g) => AppendKeepsUnneeded(s, Current(s, g), f); AppendOnly(s, Current(s, g));
    case PublishCopy(g) =>
    case EndScan(g) =>
    case RemoveFile(g) =>
  }

  lemma NewlyEnded(s: Shared, step: Step, f: FileId)
    requires Possible(s, step) && f in Exec(s, step).compactions && Exec(s, step).compactions[f].phase == Ended
    ensures step == EndScan(f) || (f in s.compactions && s.compactions[f].phase == Ended)
  {
    hide Seen, Append, Place;
    match step
    case AppendWrite(e) => AppendOnly(s, e);
    case CopyRecord(g) => AppendOnly(s, Current(s, g));
    case _ =>
  }

  lemma UnneededIsSealed(s: Shared, f: FileId)
    requires MemInv(s) && f in s.compactions && !Needed(s, f)
    ensures f < s.active
  {
    CompactingAt(s, f);
  }

  lemma StepEndsClean(s: Shared, step: Step)
    requires MemInv(s) && EndsClean(s) && Possible(s, step) && Clean(s, step)
    ensures Orderly(s, step) && EndsClean(Exec(s, step))
  {
    hide MemInv, Needed, Complete, Exec, Seen;
    var s' := Exec(s, step);
    forall f | f in s'.compactions && s'.compactions[f].phase == Ended ensures !Needed(s', f) {
      NewlyEnded(s, step, f);
      if step == EndScan(f) {
        EndScanIs(s, f);
        EndedNeeds(s, f, f);
      } else {
        UnneededIsSealed(s, f);
        StaysUnneeded(s, step, f);
      }
    }
  }

  // ---------------------------------------------------------------- what is on disk

  /** The compaction is where it was, at the same record. */
  ghost predicate SamePlace(s: Shared, s': Shared, f: FileId)
  {
    AtRecord(s, f) && AtRecord(s', f) && s'.compactions[f] == s.compactions[f] && Current(s', f) == Current(s, f)
  }

  lemma PlaceKept(s: Shared, s': Shared, f: FileId)
    requires AtRecord(s, f) && Longer(s.log, s'.log) && f in s'.compactions && s'.compactions[f] == s.compactions[f]
    ensures SamePlace(s, s', f)
  {
    hide Seen;
  }

  /** A key whose winner and index entry a step leaves alone is still on disk. */
  lemma StaysOnDisk(s: Shared, s': Shared, k: Bytes)
    requires OnDisk(s, k)
    requires k in Winners(s'.log) <==> k in Winners(s.log)
    requires k in Winners(s.log) ==> Winners(s'.log)[k] == Winners(s.log)[k]
    requires k in s'.index <==> k in s.index
    requires k in s.index ==> s'.index[k] == s.index[k]
    requires forall f :: AtRecord(s, f) && s.compactions[f].phase.Copied? && Current(s, f).key == k
               ==> SamePlace(s, s', f)
    ensures OnDisk(s', k)
  {
    hide Seen;
    var w := Winners(s.log);
    if k in w && w[k] != s.index[k] {
      var f :| AtRecord(s, f) && s.compactions[f].phase == Copied(w[k]) && Current(s, f).key == k;
      assert SamePlace(s, s', f);
    }
  }

  /** An append leaves what is on disk for every other key. */
  lemma AppendDisk(s: Shared, e: Entry, s': Shared, k: Bytes)
    requires MemInv(s) && Storable(e) && k != e.key && OnDisk(s, k)
    requires s'.log == Append(s, e).log && s'.index == s.index
    requires forall f :: f in s.compactions && s.compactions[f].phase.Copied?
               ==> f in s'.compactions && s'.compactions[f] == s.compactions[f]
    ensures OnDisk(s', k)
  {
    hide OnDisk, Indexed, InFlight, SamePlace, Longer;
    AppendedWinner(s.log, Place(s, e).id, e, k);
    AppendedLonger(s.log, Place(s, e).id, e);
    forall f | AtRecord(s, f) && s.compactions[f].phase.Copied? ensures SamePlace(s, s', f) { PlaceKept(s, s', f); }
    StaysOnDisk(s, s', k);
  }

  lemma AppendWriteDisk(s: Shared, e: Entry)
    requires MemInv(s) && DiskInv(s) && Possible(s, AppendWrite(e)) && !Overlaps(s, AppendWrite(e))
    ensures DiskInv(Exec(s, AppendWrite(e)))
  {
    hide OnDisk, MemInv;
    var s' := Exec(s, AppendWrite(e));
    forall k | k !in s'.writers ensures OnDisk(s', k) { AppendDisk(s, e, s', k); }
    forall k | k in s'.writers && s'.writers[k].e.kind == DELETE ensures k !in Winners(s'.log) {
      AppendedIsLast(s);
      AppendedWinner(s.log, Place(s, e).id, e, k);
    }
  }

  lemma AppendedIsLast(s: Shared)
    requires MemInv(s)
    ensures IsLast(s.log, s.active) && IsLast(s.log, s.active + 1)
  {
  }

  lemma CopyRecordDisk(s: Shared, g: FileId)
    requires MemInv(s) && DiskInv(s) && Possible(s, CopyRecord(g))
    ensures DiskInv(Exec(s, CopyRecord(g)))
  {
    hide MemInv, OnDisk;
    var s' := Exec(s, CopyRecord(g));
    var e := Current(s, g);
    CompactingFacts(s, g);
    AppendedIsLast(s);
    forall k | k !in s'.writers ensures OnDisk(s', k) {
      if k == e.key { CopiedOnDisk(s, g, s'); } else { AppendDisk(s, e, s', k); }
    }
    forall k | k in s'.writers && s'.writers[k].e.kind == DELETE ensures k !in Winners(s'.log) {
      AppendedWinner(s.log, Place(s, e).id, e, k);
    }
  }

  lemma CopiedOnDisk(s: Shared, g: FileId, s': Shared)
    requires MemInv(s) && Possible(s, CopyRecord(g)) && s' == Exec(s, CopyRecord(g))
    ensures OnDisk(s', Current(s, g).key)
  {
    hide MemInv, Seen, Storable, Winners, Appended;
    var e := Current(s, g);
    CompactingFacts(s, g);
    AppendedIsLast(s);
    AppendedWinner(s.log, Place(s, e).id, e, e.key);
    CopiedPlace(s, g);
    assert CopyPending(s', e.key, Place(s, e));
  }

  lemma CopiedPlace(s: Shared, g: FileId)
    requires Possible(s, CopyRecord(g))
    ensures var s', e := Exec(s, CopyRecord(g)), Current(s, g);
            AtRecord(s', g) && Current(s', g) == e && s'.compactions[g].phase == Copied(Place(s, e))
  {
    hide Seen, Target, Total;
    AppendedLonger(s.log, Place(s, Current(s, g)).id, Current(s, g));
  }

  lemma CompactingFacts(s: Shared, f: FileId)
    requires MemInv(s) && AtRecord(s, f)
    ensures Compacting(s, f) && Storable(Current(s, f))
    ensures Current(s, f).key in s.index ==> Indexed(s, Current(s, f).key)
  {
    hide Indexed, InFlight, Seen;
    assert Compacting(s, f);
    StorableAt(s.log, f, s.compactions[f].next);
  }

  lemma PublishWriteDisk(s: Shared, key: Bytes)
    requires MemInv(s) && DiskInv(s) && Possible(s, PublishWrite(key))
    ensures DiskInv(Exec(s, PublishWrite(key)))
  {
    hide Compacting, Indexed;
    var s' := Exec(s, PublishWrite(key));
    assert InFlight(s, key);
    if s.writers[key].e.kind == SET { assert Winner(s.log, s.writers[key].at); }
    forall k | k !in s'.writers ensures OnDisk(s', k) {
      if k != key { StaysOnDisk(s, s', k); }
    }
  }

  /** Starting, checking and ending leave the files and the index alone. */
  lemma ScanDisk(s: Shared, step: Step)
    requires DiskInv(s) && Possible(s, step) && (step.StartCompact? || step.CheckRecord? || step.EndScan?)
    ensures DiskInv(Exec(s, step))
  {
    hide OnDisk, Seen;
    var s' := Exec(s, step);
    forall k | k !in s'.writers ensures OnDisk(s', k) { StaysOnDisk(s, s', k); }
  }

  lemma PublishedOnDisk(s: Shared, f: FileId)
    requires MemInv(s) && Possible(s, PublishCopy(f))
    ensures OnDisk(Exec(s, PublishCopy(f)), Current(s, f).key)
  {
    hide MemInv, Seen;
    CopyIs(s, f);
    CompactingAt(s, f);
    assert Winner(s.log, s.compactions[f].phase.at);
  }

  lemma PublishCopyDisk(s: Shared, f: FileId)
    requires MemInv(s) && DiskInv(s) && Possible(s, PublishCopy(f))
    ensures DiskInv(Exec(s, PublishCopy(f)))
  {
    hide MemInv, OnDisk, Seen;
    var s' := Exec(s, PublishCopy(f));
    PublishedOnDisk(s, f);
    forall k | k !in s'.writers ensures OnDisk(s', k) {
      if k != Current(s, f).key { StaysOnDisk(s, s', k); }
    }
  }

  lemma MemAt(s: Shared, k: Bytes)
    requires MemInv(s)
    ensures k in s.index <==> k in s.model
    ensures k in s.index ==> Indexed(s, k)
    ensures k in s.writers ==> InFlight(s, k)
  {
  }

  lemma CompactingAt(s: Shared, f: FileId)
    requires MemInv(s) && f in s.compactions
    ensures Compacting(s, f)
  {
  }

  /** No key replays to a file that nothing needs. */
  lemma NothingWinsIn(s: Shared, f: FileId, p: Pos)
    requires MemInv(s) && DiskInv(s) && Possible(s, RemoveFile(f)) && !Needed(s, f) && Winner(s.log, p)
    ensures p.id != f
  {
    hide MemInv, Seen;
    var k := Rec(s.log, p).key;
    MemAt(s, k);
    if k in s.writers {
      if s.writers[k].e.kind == SET { WinnerUnique(s.log, p, s.writers[k].at); }
    } else {
      assert OnDisk(s, k) && Winners(s.log)[k] == p;
      if p != s.index[k] {
        var g :| AtRecord(s, g) && s.compactions[g].phase == Copied(p) && Current(s, g).key == k;
      }
    }
  }

  /** A copy that is about to be published survives the removal of another file. */
  lemma CopyElsewhere(s: Shared, f: FileId, g: FileId)
    requires Possible(s, RemoveFile(f)) && AtRecord(s, g) && s.compactions[g].phase.Copied?
    ensures SamePlace(s, Exec(s, RemoveFile(f)), g)
  {
    hide Seen;
  }

  lemma NothingHiddenStays(s: Shared, f: FileId)
    requires MemInv(s) && DiskInv(s) && Possible(s, RemoveFile(f)) && !Needed(s, f) && !Resurrects(s.log, f)
    ensures DiskInv(Exec(s, RemoveFile(f)))
  {
    hide MemInv, OnDisk, Resurrects, Needed, SamePlace;
    var s' := Exec(s, RemoveFile(f));
    KindsAndWinners(s, f);
    RemovedWinners(s.log, f);
    forall g | AtRecord(s, g) && s.compactions[g].phase.Copied? ensures SamePlace(s, s', g) { CopyElsewhere(s, f, g); }
    forall k | k !in s'.writers ensures OnDisk(s', k) { StaysOnDisk(s, s', k); }
  }

  lemma SomeKeyReturns(log: Log, f: FileId) returns (k: Bytes)
    requires forall p :: At(log, p) ==> Rec(log, p).kind in {SET, DELETE}
    requires forall p :: Winner(log, p) ==> p.id != f
    requires Resurrects(log, f)
    ensures k !in Winners(log) && k in Winners(Removed(log, f))
  {
    hide Resurrects, Winner, Winners;
    RemovedWinners(log, f);
    k :| k in Winners(Removed(log, f)) && k !in Winners(log);
  }

  lemma HiddenReturns(s: Shared, f: FileId)
    requires MemInv(s) && DiskInv(s) && Possible(s, RemoveFile(f)) && !Needed(s, f) && Resurrects(s.log, f)
    ensures !DiskInv(Exec(s, RemoveFile(f)))
  {
    hide MemInv, DiskInv, Resurrects, Needed, Winner, Winners;
    KindsAndWinners(s, f);
    var k := SomeKeyReturns(s.log, f);
    NothingResurrected(s, Exec(s, RemoveFile(f)), k);
  }

  /** Removing the compacted file keeps what the files replay to exactly when no tombstone in it
      still hides a Set in another file. */
  lemma RemoveFileDisk(s: Shared, f: FileId)
    requires MemInv(s) && DiskInv(s) && Possible(s, RemoveFile(f)) && !Needed(s, f)
    ensures DiskInv(Exec(s, RemoveFile(f))) <==> !Resurrects(s.log, f)
  {
    hide MemInv, DiskInv, Resurrects, Needed, Exec;
    if Resurrects(s.log, f) { HiddenReturns(s, f); } else { NothingHiddenStays(s, f); }
  }

  lemma NothingResurrected(s: Shared, s': Shared, k: Bytes)
    requires MemInv(s) && DiskInv(s) && k !in Winners(s.log) && k in Winners(s'.log)
    requires s'.index == s.index && s'.writers == s.writers
    ensures !DiskInv(s')
  {
    if k in s.writers { WriterWins(s, k); } else { assert OnDisk(s, k) && !OnDisk(s', k); }
  }

  lemma KindsAndWinners(s: Shared, f: FileId)
    requires MemInv(s) && DiskInv(s) && Possible(s, RemoveFile(f)) && !Needed(s, f)
    ensures forall p :: At(s.log, p) ==> Rec(s.log, p).kind in {SET, DELETE}
    ensures forall p :: Winner(s.log, p) ==> p.id != f
  {
    hide DiskInv, Winner, Indexed, InFlight, Compacting, Needed;
    forall p | At(s.log, p) ensures Rec(s.log, p).kind in {SET, DELETE} { StorableAt(s.log, p.id, p.i); }
    forall p | Winner(s.log, p) ensures p.id != f { NothingWinsIn(s, f, p); }
  }

  lemma WriterWins(s: Shared, k: Bytes)
    requires MemInv(s) && k in s.writers
    ensures s.writers[k].e.kind == SET || s.writers[k].e.kind == DELETE
    ensures s.writers[k].e.key == k
    ensures s.writers[k].e.kind == SET
      ==> k in Winners(s.log) && Winners(s.log)[k] == s.writers[k].at && Rec(s.log, s.writers[k].at) == s.writers[k].e
  {
    assert InFlight(s, k);
    if s.writers[k].e.kind == SET { assert Winner(s.log, s.writers[k].at); }
  }

  // ---------------------------------------------------------------- runs

  /** The step is clean, and drops no file whose tombstones still hide something. */
  ghost predicate Allowed(s: Shared, step: Step)
    requires Possible(s, step)
  {
    Clean(s, step) && (step.RemoveFile? ==> !Resurrects(s.log, step.file))
  }

  lemma StepKeepsDisk(s: Shared, step: Step)
    requires MemInv(s) && DiskInv(s) && Possible(s, step) && Orderly(s, step)
    requires step.RemoveFile? ==> !Resurrects(s.log, step.file)
    ensures DiskInv(Exec(s, step))
  {
    hide MemInv, DiskInv, Exec, Resurrects, Needed;
    match step
    case AppendWrite(e) => AppendWriteDisk(s, e);
    case PublishWrite(key) => PublishWriteDisk(s, key);
    case StartCompact(f) => ScanDisk(s, step);
    case CheckRecord(f) => ScanDisk(s, step);
    case EndScan(f) => ScanDisk(s, step);
    case CopyRecord(f) => CopyRecordDisk(s, f);
    case PublishCopy(f) => PublishCopyDisk(s, f);
    case RemoveFile(f) => RemoveFileDisk(s, f);
  }

  /** The steps can be taken one after the other. */
  predicate AllPossible(s: Shared, steps: seq<Step>)
    decreases |steps|
  {
    steps != [] ==> Possible(s, steps[0]) && AllPossible(Exec(s, steps[0]), steps[1..])
  }

  ghost predicate AllOrderly(s: Shared, steps: seq<Step>)
    requires AllPossible(s, steps)
    decreases |steps|
  {
    steps != [] ==> Orderly(s, steps[0]) && AllOrderly(Exec(s, steps[0]), steps[1..])
  }

  ghost predicate AllClean(s: Shared, steps: seq<Step>)
    requires AllPossible(s, steps)
    decreases |steps|
  {
    steps != [] ==> Clean(s, steps[0]) && AllClean(Exec(s, steps[0]), steps[1..])
  }

  ghost predicate AllAllowed(s: Shared, steps: seq<Step>)
    requires AllPossible(s, steps)
    decreases |steps|
  {
    steps != [] ==> Allowed(s, steps[0]) && AllAllowed(Exec(s, steps[0]), steps[1..])
  }

  function ExecAll(s: Shared, steps: seq<Step>): (s': Shared)
    requires AllPossible(s, steps)
    decreases |steps|
  {
    if steps == [] then s else ExecAll(Exec(s, steps[0]), steps[1..])
  }

  lemma RunSteps(s: Shared, step: Step, rest: seq<Step>)
    requires Possible(s, step) && AllPossible(Exec(s, step), rest)
    ensures AllPossible(s, [step] + rest) && ExecAll(s, [step] + rest) == ExecAll(Exec(s, step), rest)
  {
    assert ([step] + rest)[1..] == rest;
  }

  lemma {:induction false} RunConcat(s: Shared, a: seq<Step>, b: seq<Step>)
    requires AllPossible(s, a) && AllPossible(ExecAll(s, a), b)
    ensures AllPossible(s, a + b) && ExecAll(s, a + b) == ExecAll(ExecAll(s, a), b)
    decreases |a|
  {
    hide Exec, Possible;
    if a == [] {
      assert a + b == b;
    } else {
      RunConcat(Exec(s, a[0]), a[1..], b);
      assert a + b == [a[0]] + (a[1..] + b);
      RunSteps(s, a[0], a[1..] + b);
    }
  }

  lemma StepKeeps(s: Shared, step: Step)
    requires MemInv(s) && EndsClean(s) && DiskInv(s) && Possible(s, step) && Allowed(s, step)
    ensures MemInv(Exec(s, step)) && EndsClean(Exec(s, step)) && DiskInv(Exec(s, step))
  {
    hide MemInv, EndsClean, DiskInv, Possible, Exec, Resurrects, Orderly, Clean;
    StepEndsClean(s, step);
    StepKeepsMem(s, step);
    StepKeepsDisk(s, step);
  }

  lemma {:induction false} OrderlyRunKeepsMem(s: Shared, steps: seq<Step>)
    requires MemInv(s) && AllPossible(s, steps) && AllOrderly(s, steps)
    ensures MemInv(ExecAll(s, steps))
    decreases |steps|
  {
    hide MemInv, Possible, Exec, Orderly;
    if steps != [] {
      StepKeepsMem(s, steps[0]);
      OrderlyRunKeepsMem(Exec(s, steps[0]), steps[1..]);
    }
  }

  /** In a clean run every file is needed no more when it is removed. */
  lemma {:induction false} CleanIsOrderly(s: Shared, steps: seq<Step>)
    requires MemInv(s) && EndsClean(s) && AllPossible(s, steps) && AllClean(s, steps)
    ensures AllOrderly(s, steps) && EndsClean(ExecAll(s, steps))
    decreases |steps|
  {
    hide MemInv, EndsClean, Possible, Exec, Orderly, Clean;
    if steps != [] {
      StepEndsClean(s, steps[0]);
      StepKeepsMem(s, steps[0]);
      CleanIsOrderly(Exec(s, steps[0]), steps[1..]);
    }
  }

  /** Memory does not depend on what the files would replay to. */
  lemma RunKeepsMem(s: Shared, steps: seq<Step>)
    requires MemInv(s) && EndsClean(s) && AllPossible(s, steps) && AllClean(s, steps)
    ensures MemInv(ExecAll(s, steps)) && EndsClean(ExecAll(s, steps))
  {
    hide MemInv, EndsClean, AllPossible, AllOrderly, AllClean, ExecAll;
    CleanIsOrderly(s, steps);
    OrderlyRunKeepsMem(s, steps);
  }

  /** When a compaction that ran among other operations removes its file, whatever came between the end
      of its scan and the removal: nothing points into the file, and nothing in flight lies in it. */
  lemma RemovedIsUnneeded(s: Shared, steps: seq<Step>, f: FileId)
    requires MemInv(s) && EndsClean(s) && AllPossible(s, steps) && AllClean(s, steps)
    requires Possible(ExecAll(s, steps), RemoveFile(f))
    ensures var t := ExecAll(s, steps);
            && !Needed(t, f) && f < t.active
            && (forall k :: k in t.index ==> t.index[k].id != f)
            && MemInv(Exec(t, RemoveFile(f)))
  {
    hide MemInv, AllPossible, AllClean, ExecAll, Exec;
    RunKeepsMem(s, steps);
    UnneededIsSealed(ExecAll(s, steps), f);
    RemoveFileMem(ExecAll(s, steps), f);
  }

  lemma {:induction false} RunKeeps(s: Shared, steps: seq<Step>)
    requires MemInv(s) && EndsClean(s) && DiskInv(s) && AllPossible(s, steps) && AllAllowed(s, steps)
    ensures MemInv(ExecAll(s, steps)) && EndsClean(ExecAll(s, steps)) && DiskInv(ExecAll(s, steps))
    decreases |steps|
  {
    hide MemInv, EndsClean, DiskInv, Possible, Exec, Allowed;
    if steps != [] {
      StepKeeps(s, steps[0]);
      RunKeeps(Exec(s, steps[0]), steps[1..]);
    }
  }

  // ---------------------------------------------------------------- compactions of sealed files

  /** The file is not appended to any more, and a scan sees all of it. */
  predicate Plain(s: Shared, f: FileId)
  {
    f in s.log && f < s.active && Total(s.log[f]) != MAX_FILE_BYTES
  }

  ghost predicate AllPlain(s: Shared)
  {
    forall f :: f in s.compactions ==> Plain(s, f)
  }

  /** No operation begins on a key that another is at work on, and compactions are started only on
      sealed files that are not full. */
  ghost predicate AllApart(s: Shared, steps: seq<Step>)
    requires AllPossible(s, steps)
    decreases |steps|
  {
    steps != [] ==>
      && !Overlaps(s, steps[0]) && (steps[0].StartCompact? ==> Plain(s, steps[0].file))
      && AllApart(Exec(s, steps[0]), steps[1..])
  }

  lemma AppendStaysPlain(s: Shared, e: Entry, f: FileId)
    requires Plain(s, f)
    ensures f in Append(s, e).log && Append(s, e).log[f] == s.log[f] && f < Append(s, e).active
  {
    hide Total;
  }

  lemma StepStaysPlain(s: Shared, step: Step)
    requires Possible(s, step) && AllPlain(s) && (step.StartCompact? ==> Plain(s, step.file))
    ensures AllPlain(Exec(s, step))
  {
    hide Seen, Append, Place, Total;
    var s' := Exec(s, step);
    forall f | f in s'.compactions ensures Plain(s', f) {
      match step
      case AppendWrite(e) => AppendOnly(s, e); AppendStaysPlain(s, e, f);
      case CopyRecord(g) => AppendOnly(s, Current(s, g)); AppendStaysPlain(s, Current(s, g), f);
      case _ =>
    }
  }

  /** What has to hold when a scan ends can be checked when its compaction is started, if the file is
      sealed by then and not full. */
  lemma {:induction false} ApartIsClean(s: Shared, steps: seq<Step>)
    requires AllPlain(s) && AllPossible(s, steps) && AllApart(s, steps)
    ensures AllClean(s, steps)
    decreases |steps|
  {
    hide Possible, Exec, Overlaps, NeededAt;
    if steps != [] {
      StepStaysPlain(s, steps[0]);
      PlainIsClean(s, steps[0]);
      ApartIsClean(Exec(s, steps[0]), steps[1..]);
    }
  }

  lemma PlainIsClean(s: Shared, step: Step)
    requires Possible(s, step) && AllPlain(s) && !Overlaps(s, step)
    ensures Clean(s, step)
  {
    hide Overlaps, NeededAt;
  }

  /** The value a reader gets through the index. */
  function Read(s: Shared, k: Bytes): (v: Option<Bytes>)
  {
    if k in s.index && At(s.log, s.index[k]) then Some(Rec(s.log, s.index[k]).value) else None
  }

  /** The value a reader gets after a crash and a replay of the files. */
  ghost function Restored(s: Shared, k: Bytes): (v: Option<Bytes>)
  {
    var w := Winners(s.log);
    if k in w then Some(Rec(s.log, w[k]).value) else None
  }

  function Lookup<K, V>(m: map<K, V>, k: K): (v: Option<V>)
  {
    if k in m then Some(m[k]) else None
  }

  /** The map with the write in flight, if the key has one, taken as done. */
  function Settled(s: Shared, k: Bytes): (v: Option<Bytes>)
  {
    if k in s.writers then
      var e := s.writers[k].e;
      if e.kind == SET then Some(e.value) else None
    else Lookup(s.model, k)
  }

  lemma InvReads(s: Shared, k: Bytes)
    requires MemInv(s)
    ensures Read(s, k) == Lookup(s.model, k)
  {
    hide MemInv;
    MemAt(s, k);
  }

  lemma InvRestores(s: Shared, k: Bytes)
    requires MemInv(s) && DiskInv(s)
    ensures Restored(s, k) == Settled(s, k)
  {
    hide MemInv, Seen;
    MemAt(s, k);
    if k in s.writers {
      WriterWins(s, k);
    } else {
      assert OnDisk(s, k);
      var w := Winners(s.log);
      if k in w && w[k] != s.index[k] {
        var f :| AtRecord(s, f) && s.compactions[f].phase == Copied(w[k]) && Current(s, f).key == k;
        CompactingAt(s, f);
      }
    }
  }

  /** A store at rest: the index its files replay to, and nothing in flight. */
  ghost function AtRest(log: Log, active: FileId): (s: Shared)
  {
    var w := Winners(log);
    Shared(log, active, w, map k | k in w :: Rec(log, w[k]).value, map[], map[])
  }

  lemma AtRestInv(log: Log, active: FileId)
    requires active in log && IsLast(log, active) && StorableLog(log)
    ensures MemInv(AtRest(log, active)) && EndsClean(AtRest(log, active)) && DiskInv(AtRest(log, active))
  {
    var s := AtRest(log, active);
    forall k | k in s.index ensures Indexed(s, k) { assert Winner(log, s.index[k]); }
  }

  /** However writers and compactions interleave, as long as no two of them work on one key at the
      same time and no scan ends that has to miss something: every reader finds what the published
      writes made of the map, whatever files are removed and tombstones dropped with them. */
  lemma InterleavedRun(s: Shared, steps: seq<Step>, k: Bytes)
    requires MemInv(s) && EndsClean(s) && AllPossible(s, steps) && AllClean(s, steps)
    ensures Read(ExecAll(s, steps), k) == Lookup(ExecAll(s, steps).model, k)
  {
    hide MemInv, EndsClean, Read, AllPossible, AllClean, ExecAll;
    RunKeepsMem(s, steps);
    InvReads(ExecAll(s, steps), k);
  }

  /** If the tombstones in removed files hide nothing any more, a crash at any point replays to that map
      too, with every write that had reached the files done. */
  lemma CrashInRun(s: Shared, steps: seq<Step>, k: Bytes)
    requires MemInv(s) && EndsClean(s) && DiskInv(s) && AllPossible(s, steps) && AllAllowed(s, steps)
    ensures Restored(ExecAll(s, steps), k) == Settled(ExecAll(s, steps), k)
  {
    hide MemInv, EndsClean, DiskInv, Restored, AllPossible, AllAllowed, ExecAll;
    RunKeeps(s, steps);
    InvRestores(ExecAll(s, steps), k);
  }

  /** In particular from a store at rest, when compactions are started on sealed files that are not full. */
  lemma RunFromRest(log: Log, active: FileId, steps: seq<Step>, k: Bytes)
    requires active in log && IsLast(log, active) && StorableLog(log)
    requires AllPossible(AtRest(log, active), steps) && AllApart(AtRest(log, active), steps)
    ensures var s := ExecAll(AtRest(log, active), steps); Read(s, k) == Lookup(s.model, k)
  {
    AtRestInv(log, active);
    hide MemInv, EndsClean, DiskInv, Read, AllPossible, AllApart, AllClean, ExecAll, IsLast, StorableLog;
    ApartIsClean(AtRest(log, active), steps);
    InterleavedRun(AtRest(log, active), steps, k);
  }

  // ---------------------------------------------------------------- readers

  /** A record stays where it is until its file is removed. */
  lemma RecordStays(s: Shared, step: Step, p: Pos)
    requires MemInv(s) && Possible(s, step) && Orderly(s, step) && At(s.log, p)
    ensures var s' := Exec(s, step);
            if step == RemoveFile(p.id) then p.id !in s'.log && p.id < s'.active
            else At(s'.log, p) && Rec(s'.log, p) == Rec(s.log, p)
  {
    hide Indexed, InFlight, StorableLog, Seen;
    match step
    case RemoveFile(f) => assert f in s.log;
    case _ =>
  }

  lemma FileStaysGone(s: Shared, step: Step, f: FileId)
    requires MemInv(s) && Possible(s, step) && f !in s.log && f < s.active
    ensures f !in Exec(s, step).log && f < Exec(s, step).active
  {
    hide Indexed, InFlight, Compacting, StorableLog, Seen;
  }

  lemma {:induction false} FileGoneInRun(s: Shared, steps: seq<Step>, f: FileId)
    requires MemInv(s) && AllPossible(s, steps) && AllOrderly(s, steps) && f !in s.log && f < s.active
    ensures f !in ExecAll(s, steps).log
    decreases |steps|
  {
    hide MemInv, Possible, Exec, Orderly;
    if steps != [] {
      StepKeepsMem(s, steps[0]);
      FileStaysGone(s, steps[0], f);
      FileGoneInRun(Exec(s, steps[0]), steps[1..], f);
    }
  }

  lemma {:induction false} RecordInRun(s: Shared, steps: seq<Step>, p: Pos)
    requires MemInv(s) && AllPossible(s, steps) && AllOrderly(s, steps) && At(s.log, p)
    ensures var s' := ExecAll(s, steps);
            if RemoveFile(p.id) in steps then p.id !in s'.log else At(s'.log, p) && Rec(s'.log, p) == Rec(s.log, p)
    decreases |steps|
  {
    hide MemInv, Possible, Exec, Orderly;
    if steps != [] {
      StepKeepsMem(s, steps[0]);
      RecordStays(s, steps[0], p);
      if steps[0] == RemoveFile(p.id) {
        FileGoneInRun(Exec(s, steps[0]), steps[1..], p.id);
      } else {
        RecordInRun(Exec(s, steps[0]), steps[1..], p);
      }
    }
  }

  /** A Get looks its key up and then opens the file, with any steps of others in between. It fails
      exactly when the file is removed in between; else it returns the value that the key had at the
      lookup. */
  lemma GetInTwoSteps(s: Shared, steps: seq<Step>, k: Bytes)
    requires MemInv(s) && EndsClean(s) && AllPossible(s, steps) && AllClean(s, steps) && k in s.index
    ensures var p, s' := s.index[k], ExecAll(s, steps);
            && (p.id !in s'.log <==> RemoveFile(p.id) in steps)
            && (RemoveFile(p.id) !in steps ==> At(s'.log, p) && Some(Rec(s'.log, p).value) == Lookup(s.model, k))
  {
    hide MemInv, EndsClean, AllPossible, AllOrderly, AllClean, ExecAll;
    MemAt(s, k);
    CleanIsOrderly(s, steps);
    RecordInRun(s, steps, s.index[k]);
  }
}

/** Operations on one key that overlap, which Interleaving excludes: which orders of their steps lose an
    update, in memory and on disk. */
module Overlapping {
  import opened Basics
  import opened RecordFormat
  import opened RecordScan
  import opened Log
  import opened Interleaving

  // ---------------------------------------------------------------- a Get whose file is removed

  const OLD := Entry(0, SET, [], [1], 0)
  const NEW := Entry(0, SET, [], [2], 0)

  /** One record in the sealed file 0, and an empty active file. */
  const START := Shared(map[0 := [OLD], 1 := []], 1, map[[] := Pos(0, 0)], map[[] := [1]], map[], map[])

  lemma StartInv()
    ensures MemInv(START) && EndsClean(START) && DiskInv(START)
  {
    var log := START.log;
    assert Winner(log, Pos(0, 0)) && Rec(log, Pos(0, 0)).key == [];
    assert forall p :: At(log, p) ==> p == Pos(0, 0);
    assert Indexed(START, []);
    assert StorableLog(log);
    forall k ensures OnDisk(START, k) {
      if k in Winners(log) { assert At(log, Winners(log)[k]); }
    }
  }

  lemma TotalOne(e: Entry)
    ensures Total([e]) == Size(e) && RecordsOf(map[0 := [OLD], 1 := [e]], 1) == [e]
  {
    assert [e][..0] == [];
  }

  lemma AppendTo(rs: seq<Entry>, e: Entry)
    requires Total(rs) < 1000 && Size(e) < 1000
    ensures var log := map[0 := [OLD], 1 := rs];
            Target(log, 1, Size(e)) == 1 && RecordsOf(log, 1) == rs
            && Appended(log, 1, e) == map[0 := [OLD], 1 := rs + [e]]
  {
  }

  /** A whole compaction of file 0. */
  const MOVE := [StartCompact(0), CheckRecord(0), CopyRecord(0), PublishCopy(0), EndScan(0), RemoveFile(0)]

  const STARTED := START.(compactions := map[0 := Cursor(0, Scanning)])
  const CHECKED := START.(compactions := map[0 := Cursor(0, Checked)])
  const APPENDED := START.(log := map[0 := [OLD], 1 := [OLD]], compactions := map[0 := Cursor(0, Copied(Pos(1, 0)))])
  const MOVED := APPENDED.(index := map[[] := Pos(1, 0)], compactions := map[0 := Cursor(1, Scanning)])
  const ENDED := MOVED.(compactions := map[0 := Cursor(1, Ended)])

  lemma MoveChecks()
    ensures Possible(START, StartCompact(0)) && Allowed(START, StartCompact(0)) && Exec(START, StartCompact(0)) == STARTED
    ensures Possible(STARTED, CheckRecord(0)) && Allowed(STARTED, CheckRecord(0)) && Exec(STARTED, CheckRecord(0)) == CHECKED
  {
    TotalOne(OLD);
  }

  lemma MoveCopies()
    ensures Possible(CHECKED, CopyRecord(0)) && Allowed(CHECKED, CopyRecord(0)) && Exec(CHECKED, CopyRecord(0)) == APPENDED
  {
    AppendTo([], OLD);
    assert [] + [OLD] == [OLD];
    assert RecordsOf(CHECKED.log, 0) == [OLD] && Current(CHECKED, 0) == OLD by { TotalOne(OLD); }
    hide Target, Appended, RecordsOf, Total, Seen;
    assert Place(CHECKED, OLD) == Pos(1, 0);
  }

  lemma MovePublishes()
    ensures Possible(APPENDED, PublishCopy(0)) && Allowed(APPENDED, PublishCopy(0)) && Exec(APPENDED, PublishCopy(0)) == MOVED
  {
    TotalOne(OLD);
  }

  lemma MoveEnds()
    ensures Possible(MOVED, EndScan(0)) && Allowed(MOVED, EndScan(0)) && Exec(MOVED, EndScan(0)) == ENDED
  {
    TotalOne(OLD);
  }

  lemma MoveRemoves()
    ensures Possible(ENDED, RemoveFile(0)) && Allowed(ENDED, RemoveFile(0))
    ensures 0 !in Exec(ENDED, RemoveFile(0)).log && Read(Exec(ENDED, RemoveFile(0)), []) == Some([1])
  {
    OldestNeverResurrects(ENDED.log, 0);
  }

  /** A Get that looked its key up before this compaction and opens the file after it fails, though
      the key is there all the time and nothing overlaps. */
  lemma GetLosesItsFile()
    ensures MemInv(START) && EndsClean(START) && DiskInv(START) && AllPossible(START, MOVE) && AllAllowed(START, MOVE)
    ensures [] in START.index && START.index[[]].id !in ExecAll(START, MOVE).log
    ensures Read(START, []) == Read(ExecAll(START, MOVE), []) == Some([1])
  {
    hide MemInv, EndsClean, DiskInv, Exec, Possible, Allowed;
    StartInv();
    MoveChecks();
    MoveCopies();
    MovePublishes();
    MoveEnds();
    MoveRemoves();
    OneStep(ENDED, RemoveFile(0), []);
    OneStep(MOVED, EndScan(0), MOVE[5..]);
    OneStep(APPENDED, PublishCopy(0), MOVE[4..]);
    OneStep(CHECKED, CopyRecord(0), MOVE[3..]);
    OneStep(STARTED, CheckRecord(0), MOVE[2..]);
    OneStep(START, StartCompact(0), MOVE[1..]);
  }

  lemma OneStep(s: Shared, step: Step, rest: seq<Step>)
    requires Possible(s, step) && Allowed(s, step) && AllPossible(Exec(s, step), rest) && AllAllowed(Exec(s, step), rest)
    ensures AllPossible(s, [step] + rest) && AllAllowed(s, [step] + rest)
    ensures ExecAll(s, [step] + rest) == ExecAll(Exec(s, step), rest)
  {
    assert ([step] + rest)[1..] == rest;
  }

  // ---------------------------------------------------------------- one copy and one write of the same key

  function CopySteps(f: FileId): (steps: seq<Step>)
    ensures |steps| == 3
  {
    [CheckRecord(f), CopyRecord(f), PublishCopy(f)]
  }

  /** The write is appended before step a of the copy, and published before step b. */
  function Schedule(f: FileId, e: Entry, a: nat, b: nat): (steps: seq<Step>)
    requires a <= b <= 3
  {
    var copy := CopySteps(f);
    copy[..a] + [AppendWrite(e)] + copy[a..b] + [PublishWrite(e.key)] + copy[b..]
  }

  // Which record of the key an index stands for.
  datatype Which = Original | Copy | Write | Neither

  /** How far copy and write have got, and which record the index in memory has and replaying the
      files would give. `writeFirst` says that the write was appended before the copy. */
  datatype Track = Track(copied: nat, written: bool, published: bool, writeFirst: bool, index: Which, winner: Which)

  const AT_START := Track(0, false, false, false, Original, Original)

  /** One copy and one write: record i of file f and its copy's place, the written record and its
      place, and the map before. */
  datatype Race = Race(f: FileId, i: nat, record: Entry, copy: Pos, entry: Entry, write: Pos, model: map<Bytes, Bytes>)
  {
    function Place(w: Which): (p: Pos)
      requires w != Neither
    {
      match w
      case Original => Pos(f, i)
      case Copy => copy
      case Write => write
    }

    function Cursor(copied: nat): (c: Cursor)
    {
      if copied == 0 then Interleaving.Cursor(i, Scanning)
      else if copied == 1 then Interleaving.Cursor(i, Checked)
      else if copied == 2 then Interleaving.Cursor(i, Copied(copy))
      else Interleaving.Cursor(i + 1, Scanning)
    }

    /** The map with the write done. */
    function Model(published: bool): (m: map<Bytes, Bytes>)
    {
      if !published then model else if entry.kind == SET then model[entry.key := entry.value] else model - {entry.key}
    }
  }

  ghost predicate Stands(m: map<Bytes, Pos>, r: Race, w: Which)
  {
    if w == Neither then r.record.key !in m else r.record.key in m && m[r.record.key] == r.Place(w)
  }

  /** A record of the race is where the race says, behind the record that is copied. */
  predicate Placed(s: Shared, r: Race, p: Pos, e: Entry)
  {
    At(s.log, p) && Rec(s.log, p) == e && Pos(r.f, r.i).Less(p)
  }

  ghost predicate Files(s: Shared, r: Race)
  {
    && s.active in s.log && IsLast(s.log, s.active) && StorableLog(s.log)
    && r.f in s.log && r.i < |Seen(s.log[r.f])| && Rec(s.log, Pos(r.f, r.i)) == r.record && r.record.kind == SET
    && Storable(r.entry) && r.entry.key == r.record.key
  }

  /** The state is where the track says. */
  ghost predicate On(s: Shared, r: Race, t: Track)
  {
    && Files(s, r)
    && (t.published ==> t.written) && t.copied <= 3 && r.f in s.compactions && s.compactions[r.f] == r.Cursor(t.copied)
    && (t.copied >= 2 ==> Placed(s, r, r.copy, r.record)) && (t.written ==> Placed(s, r, r.write, r.entry))
    && (t.written && t.copied < 2 ==> t.writeFirst)
    && (t.written && t.copied >= 2 ==> if t.writeFirst then r.write.Less(r.copy) else r.copy.Less(r.write))
    && (if t.written && !t.published then r.entry.key in s.writers && s.writers[r.entry.key] == Pending(r.entry, r.write)
        else r.entry.key !in s.writers)
    && (Copy in {t.index, t.winner} ==> t.copied >= 2) && (Write in {t.index, t.winner} ==> t.written)
    && Stands(s.index, r, t.index) && Stands(Winners(s.log), r, t.winner)
    && s.model == r.Model(t.published)
  }

  function AfterAppend(t: Track, kind: byte): (t': Track)
  {
    t.(written := true, writeFirst := t.copied < 2, winner := if kind == SET then Write else Neither)
  }

  function AfterPublish(t: Track, kind: byte): (t': Track)
  {
    t.(published := true, index := if kind == SET then Write else Neither)
  }

  /** The next step of the copy. */
  function AfterCopyStep(t: Track): (t': Track)
  {
    if t.copied == 0 then t.(copied := 1)
    else if t.copied == 1 then t.(copied := 2, winner := Copy)
    else t.(copied := 3, index := if t.index == Original || (t.index == Write && t.writeFirst) then Copy else t.index)
  }

  /** What an append of a record of the key leaves and adds. */
  lemma RaceAppend(s: Shared, r: Race, e: Entry)
    requires Files(s, r) && Storable(e) && e.key == r.record.key
    ensures var s', top := Append(s, e), Place(s, e);
            && Files(s', r) && Placed(s', r, top, e)
            && (forall p, x :: Placed(s, r, p, x) ==> Placed(s', r, p, x) && p.Less(top))
            && Pos(r.f, r.i).Less(top)
            && if e.kind == SET then e.key in Winners(s'.log) && Winners(s'.log)[e.key] == top else e.key !in Winners(s'.log)
  {
    hide Newest, StorableLog, Seen;
    AppendKeeps(s, e);
    AppendedWinner(s.log, Place(s, e).id, e, e.key);
  }

  lemma RecordStorable(s: Shared, r: Race)
    requires Files(s, r)
    ensures r.f in s.log && r.i < |Seen(s.log[r.f])|
    ensures Storable(r.record) && r.record.kind == SET && At(s.log, Pos(r.f, r.i)) && Rec(s.log, Pos(r.f, r.i)) == r.record
    ensures Storable(r.entry) && r.entry.key == r.record.key
  {
    StorableAt(s.log, r.f, r.i);
  }

  /** What holds of the files does not depend on where the copy and the write are, or on the rest of
      the state. */
  lemma SameFiles(s: Shared, r: Race, r': Race)
    requires Files(s, r) && r' == r.(copy := r'.copy, write := r'.write)
    ensures Files(s, r')
    ensures forall s': Shared :: s'.log == s.log && s'.active == s.active ==> Files(s', r')
  {
    hide StorableLog;
  }

  lemma WriteAppended(s: Shared, r: Race, t: Track) returns (r': Race)
    requires On(s, r, t) && !t.written
    ensures Possible(s, AppendWrite(r.entry)) && r' == r.(write := r'.write)
    ensures On(Exec(s, AppendWrite(r.entry)), r', AfterAppend(t, r.entry.kind))
  {
    hide Files, Interleaving.Place, Interleaving.Append, IsLast, StorableLog, Newest, Seen, Winners, Storable;
    r' := r.(write := Place(s, r.entry));
    AppendOnly(s, r.entry);
    RecordStorable(s, r);
    RaceAppend(s, r, r.entry);
    SameFiles(Append(s, r.entry), r, r');
  }

  lemma WritePublished(s: Shared, r: Race, t: Track)
    requires On(s, r, t) && t.written && !t.published
    ensures Possible(s, PublishWrite(r.entry.key))
    ensures On(Exec(s, PublishWrite(r.entry.key)), r, AfterPublish(t, r.entry.kind))
  {
    hide Newest, StorableLog, Seen;
  }

  lemma CopyChecked(s: Shared, r: Race, t: Track)
    requires On(s, r, t) && t.copied == 0 && t.index == Original
    ensures Possible(s, CheckRecord(r.f)) && On(Exec(s, CheckRecord(r.f)), r, AfterCopyStep(t))
  {
    hide Newest, StorableLog, Seen;
  }

  lemma CopyAppended(s: Shared, r: Race, t: Track) returns (r': Race)
    requires On(s, r, t) && t.copied == 1
    ensures Possible(s, CopyRecord(r.f)) && r' == r.(copy := r'.copy)
    ensures On(Exec(s, CopyRecord(r.f)), r', AfterCopyStep(t))
  {
    hide Files, Interleaving.Place, Interleaving.Append, IsLast, StorableLog, Newest, Seen, Winners, Storable;
    r' := r.(copy := Place(s, r.record));
    AppendOnly(s, r.record);
    RecordStorable(s, r);
    RaceAppend(s, r, r.record);
    SameFiles(Append(s, r.record), r, r');
  }

  lemma CopyPublished(s: Shared, r: Race, t: Track)
    requires On(s, r, t) && t.copied == 2
    ensures Possible(s, PublishCopy(r.f)) && On(Exec(s, PublishCopy(r.f)), r, AfterCopyStep(t))
  {
    hide Newest, StorableLog, Seen, Winners, Storable, IsLast;
  }

  // ---------------------------------------------------------------- every order of the steps

  /** The steps in `done` lead from s0 to s, where the track says. */
  ghost predicate Reached(s0: Shared, done: seq<Step>, s: Shared, r: Race, t: Track)
  {
    AllPossible(s0, done) && ExecAll(s0, done) == s && On(s, r, t)
  }

  lemma Extend(s0: Shared, done: seq<Step>, step: Step)
    requires AllPossible(s0, done) && Possible(ExecAll(s0, done), step)
    ensures AllPossible(s0, done + [step]) && ExecAll(s0, done + [step]) == Exec(ExecAll(s0, done), step)
  {
    hide Exec, Possible;
    var s := ExecAll(s0, done);
    RunSteps(s, step, []);
    assert [step] + [] == [step];
    RunConcat(s0, done, [step]);
  }

  lemma CopyOnce(s0: Shared, done: seq<Step>, s: Shared, r: Race, t: Track) returns (r': Race)
    requires Reached(s0, done, s, r, t) && t.copied < 3 && (t.copied == 0 ==> t.index == Original)
    ensures var step := CopySteps(r.f)[t.copied];
            && Possible(s, step) && Reached(s0, done + [step], Exec(s, step), r', AfterCopyStep(t)) && r' == r.(copy := r'.copy)
  {
    assert t.copied < 3 && On(s, r, t);
    hide On, Exec, Possible, AfterCopyStep;
    r' := r;
    if t.copied == 0 {
      CopyChecked(s, r, t);
    } else if t.copied == 1 {
      r' := CopyAppended(s, r, t);
    } else {
      CopyPublished(s, r, t);
    }
    Extend(s0, done, CopySteps(r.f)[t.copied]);
  }

  lemma AppendOnce(s0: Shared, done: seq<Step>, s: Shared, r: Race, t: Track) returns (r': Race)
    requires Reached(s0, done, s, r, t) && !t.written
    ensures var step := AppendWrite(r.entry);
            && Possible(s, step) && Reached(s0, done + [step], Exec(s, step), r', AfterAppend(t, r.entry.kind))
            && r' == r.(write := r'.write)
  {
    hide On, Exec, Possible;
    r' := WriteAppended(s, r, t);
    Extend(s0, done, AppendWrite(r.entry));
  }

  lemma PublishOnce(s0: Shared, done: seq<Step>, s: Shared, r: Race, t: Track)
    requires Reached(s0, done, s, r, t) && t.written && !t.published
    ensures var step := PublishWrite(r.entry.key);
            Possible(s, step) && Reached(s0, done + [step], Exec(s, step), r, AfterPublish(t, r.entry.kind))
  {
    hide On, Exec, Possible;
    WritePublished(s, r, t);
    Extend(s0, done, PublishWrite(r.entry.key));
  }

  /** The copy's steps up to, and without, the n-th. */
  function CopiedTo(t: Track, n: nat): (t': Track)
    requires n <= 3
    decreases n - t.copied
  {
    if t.copied >= n then t else CopiedTo(AfterCopyStep(t), n)
  }

  lemma NextStep(done: seq<Step>, copy: seq<Step>, i: nat, n: nat)
    requires i < n <= |copy|
    ensures done + [copy[i]] + copy[i + 1..n] == done + copy[i..n]
  {
    assert copy[i..n] == [copy[i]] + copy[i + 1..n];
  }

  lemma {:induction false} CopyTo(s0: Shared, done: seq<Step>, s: Shared, r: Race, t: Track, n: nat)
    returns (s': Shared, r': Race)
    requires Reached(s0, done, s, r, t) && t.copied <= n <= 3 && (t.copied == 0 < n ==> t.index == Original)
    ensures Reached(s0, done + CopySteps(r.f)[t.copied..n], s', r', CopiedTo(t, n)) && r' == r.(copy := r'.copy)
    decreases n - t.copied
  {
    hide On, Exec, Possible;
    if t.copied == n {
      s', r' := s, r;
      assert done + CopySteps(r.f)[n..n] == done;
    } else {
      var step := CopySteps(r.f)[t.copied];
      r' := CopyOnce(s0, done, s, r, t);
      s', r' := CopyTo(s0, done + [step], Exec(s, step), r', AfterCopyStep(t), n);
      NextStep(done, CopySteps(r.f), t.copied, n);
    }
  }

  /** The track at the end of a schedule. */
  function Final(kind: byte, a: nat, b: nat): (t: Track)
    requires a <= b <= 3
  {
    CopiedTo(AfterPublish(CopiedTo(AfterAppend(CopiedTo(AT_START, a), kind), b), kind), 3)
  }

  lemma FinalIs(kind: byte, a: nat, b: nat)
    requires a <= b <= 3 && b >= 1
    ensures var t, isSet := Final(kind, a, b), kind == SET;
            && t.published && t.written && t.copied == 3
            && t.index == (if !isSet then Neither else if a < 2 && b < 3 then Copy else Write)
            && t.winner == (if a < 2 then Copy else if isSet then Write else Neither)
  {
    CopiedIs(AT_START, a);
    var t2 := AfterAppend(CopiedTo(AT_START, a), kind);
    CopiedIs(t2, b);
    CopiedIs(AfterPublish(CopiedTo(t2, b), kind), 3);
  }

  lemma {:induction false} CopiedIs(t: Track, n: nat)
    requires t.copied <= n <= 3
    ensures var u := CopiedTo(t, n);
            && u.copied == n && u.written == t.written && u.published == t.published && u.writeFirst == t.writeFirst
            && u.winner == (if t.copied < 2 <= n then Copy else t.winner)
            && u.index == (if t.copied < 3 == n && (t.index == Original || (t.index == Write && t.writeFirst)) then Copy else t.index)
    decreases n - t.copied
  {
    if t.copied < n { CopiedIs(AfterCopyStep(t), n); }
  }

  lemma RaceStarts(s: Shared, f: FileId, e: Entry) returns (r: Race)
    requires MemInv(s) && DiskInv(s) && AtRecord(s, f) && s.compactions[f].phase == Scanning
    requires var record := Current(s, f);
             record.kind == SET && e.key == record.key && record.key !in s.writers && Storable(e)
             && record.key in s.index && s.index[record.key] == Pos(f, s.compactions[f].next)
    ensures r.f == f && r.record == Current(s, f) && r.entry == e && r.model == s.model && On(s, r, AT_START)
  {
    hide MemInv, DiskInv, Files, Storable;
    var record := Current(s, f);
    r := Race(f, s.compactions[f].next, record, Pos(0, 0), e, Pos(0, 0), s.model);
    RaceFiles(s, r);
    WinsOnDisk(s, f, record.key);
  }

  lemma WinsOnDisk(s: Shared, f: FileId, key: Bytes)
    requires MemInv(s) && DiskInv(s) && f in s.compactions && s.compactions[f].phase == Scanning
    requires key in s.index && s.index[key] == Pos(f, s.compactions[f].next) && key !in s.writers
    ensures key in Winners(s.log) && Winners(s.log)[key] == s.index[key]
  {
    NotCopied(s, f, key);
    hide MemInv, CopyPending;
    assert OnDisk(s, key);
  }

  lemma RaceFiles(s: Shared, r: Race)
    requires MemInv(s) && AtRecord(s, r.f) && r.i == s.compactions[r.f].next && r.record == Current(s, r.f)
    requires r.record.kind == SET && Storable(r.entry) && r.entry.key == r.record.key
    ensures Files(s, r)
  {
    hide Compacting, Indexed, InFlight;
    CompactingFacts(s, r.f);
  }

  /** A key whose record a compaction has yet to check is not being copied by any compaction. */
  lemma NotCopied(s: Shared, f: FileId, key: Bytes)
    requires MemInv(s) && f in s.compactions && s.compactions[f].phase == Scanning
    requires key in s.index && s.index[key] == Pos(f, s.compactions[f].next)
    ensures forall p :: !CopyPending(s, key, p)
  {
    hide MemInv;
    forall p, g | AtRecord(s, g) && s.compactions[g].phase == Copied(p) ensures Current(s, g).key != key {
      CompactingAt(s, g);
    }
  }

  lemma StartReached(s: Shared, r: Race)
    requires On(s, r, AT_START)
    ensures Reached(s, [], s, r, AT_START)
  {
    hide On;
  }

  lemma TrackAppended(t: Track, kind: byte)
    ensures var u := AfterAppend(t, kind); u.copied == t.copied && u.written && u.published == t.published && u.index == t.index
  {
  }

  lemma TrackPublished(t: Track, kind: byte)
    ensures var u := AfterPublish(t, kind); u.copied == t.copied && u.published
  {
  }

  lemma OutcomeOf(s0: Shared, done: seq<Step>, s: Shared, r: Race, t: Track)
    requires Reached(s0, done, s, r, t) && t.published
    ensures AllPossible(s0, done) && ExecAll(s0, done) == s && s.model == r.Model(true)
    ensures Read(s, r.entry.key) == ValueOf(r, t.index) && Restored(s, r.entry.key) == ValueOf(r, t.winner)
  {
    hide StorableLog, IsLast;
  }

  function ValueOf(r: Race, w: Which): (v: Option<Bytes>)
  {
    match w
    case Neither => None
    case Write => Some(r.entry.value)
    case _ => Some(r.record.value)
  }

  lemma ScheduleIs(f: FileId, e: Entry, a: nat, b: nat)
    requires a <= b <= 3
    ensures var copy := CopySteps(f);
            [] + copy[0..a] + [AppendWrite(e)] + copy[a..b] + [PublishWrite(e.key)] + copy[b..3] == Schedule(f, e, a, b)
  {
  }

  /** One copy and one write of the same key, in any order in which the copy is made at all. Replaying
      the files gives the old value back exactly when the write was appended before the copy; the
      index does exactly when it was also published before the copy, and is not a delete. */
  lemma RaceOutcome(s: Shared, f: FileId, e: Entry, a: nat, b: nat)
    requires MemInv(s) && DiskInv(s) && AtRecord(s, f) && s.compactions[f].phase == Scanning
    requires var record := Current(s, f);
             record.kind == SET && e.key == record.key && record.key !in s.writers && Storable(e)
             && record.key in s.index && s.index[record.key] == Pos(f, s.compactions[f].next)
    requires a <= b <= 3 && b >= 1
    ensures AllPossible(s, Schedule(f, e, a, b))
    ensures var s', stale := ExecAll(s, Schedule(f, e, a, b)), Some(Current(s, f).value);
            && Lookup(s'.model, e.key) == (if e.kind == SET then Some(e.value) else None)
            && Read(s', e.key) == (if e.kind == SET && a < 2 && b < 3 then stale else Lookup(s'.model, e.key))
            && Restored(s', e.key) == (if a < 2 then stale else Lookup(s'.model, e.key))
  {
    hide MemInv, DiskInv, On, Exec, Possible, AllPossible, ExecAll, Reached, CopiedTo, AfterAppend, AfterPublish, CopySteps, Read,
         Restored, Storable;
    var r := RaceStarts(s, f, e);
    var copy, k := CopySteps(f), e.kind;
    CopiedIs(AT_START, a);
    StartReached(s, r);
    var s1, r1 := CopyTo(s, [], s, r, AT_START, a);
    var t1, done1 := CopiedTo(AT_START, a), [] + copy[0..a];
    var r2 := AppendOnce(s, done1, s1, r1, t1);
    var s2, t2, done2 := Exec(s1, AppendWrite(e)), AfterAppend(t1, k), done1 + [AppendWrite(e)];
    TrackAppended(t1, k);
    var s3, r3 := CopyTo(s, done2, s2, r2, t2, b);
    CopiedIs(t2, b);
    var t3, done3 := CopiedTo(t2, b), done2 + copy[a..b];
    PublishOnce(s, done3, s3, r3, t3);
    var s4, t4, done4 := Exec(s3, PublishWrite(e.key)), AfterPublish(t3, k), done3 + [PublishWrite(e.key)];
    TrackPublished(t3, k);
    var s5, r5 := CopyTo(s, done4, s4, r3, t4, 3);
    ScheduleIs(f, e, a, b);
    FinalIs(k, a, b);
    OutcomeOf(s, Schedule(f, e, a, b), s5, r5, Final(k, a, b));
  }

  /** A writer appends a new value of the key between a compaction's check and its copy, and
      publishes it before the compaction publishes the copy. */
  const LOST_UPDATE := [StartCompact(0), CheckRecord(0), AppendWrite(NEW), CopyRecord(0), PublishWrite([]), PublishCopy(0)]

  lemma LostUpdateIs()
    ensures [StartCompact(0)] + Schedule(0, NEW, 1, 2) == LOST_UPDATE
  {
    var copy := CopySteps(0);
    assert copy[..1] == [CheckRecord(0)] && copy[1..2] == [CopyRecord(0)] && copy[2..] == [PublishCopy(0)];
    assert Schedule(0, NEW, 1, 2) == [CheckRecord(0), AppendWrite(NEW), CopyRecord(0), PublishWrite([]), PublishCopy(0)];
  }

  /** In particular an update is lost: the key goes back to its old value for good. */
  lemma OverlapLosesUpdate()
    ensures MemInv(START) && DiskInv(START) && AllPossible(START, LOST_UPDATE)
    ensures Lookup(ExecAll(START, LOST_UPDATE).model, []) == Some([2])
    ensures Read(ExecAll(START, LOST_UPDATE), []) == Restored(ExecAll(START, LOST_UPDATE), []) == Some([1])
  {
    hide MemInv, EndsClean, DiskInv, Exec, Possible, AllPossible, ExecAll, Allowed, Read, Restored;
    StartInv();
    MoveChecks();
    StepKeeps(START, StartCompact(0));
    RaceOutcome(STARTED, 0, NEW, 1, 2);
    RunSteps(START, StartCompact(0), Schedule(0, NEW, 1, 2));
    LostUpdateIs();
  }
}

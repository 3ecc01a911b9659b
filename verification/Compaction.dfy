/** Compaction: copying the live records of a file to the end of the log and dropping the file
    (src/db_impl.cc, Compact). */
module Compaction {
  import opened Basics
  import opened RecordFormat
  import opened RecordScan
  import opened Log
  import opened Accounting
  import opened Store

  /** What holds while file f is being scanned by Compact. */
  ghost predicate Compacts(env: Env, s: Store, f: FileId)
  {
    Inv(env, s) && f in s.log && StateOf(s.mem, f).state == Compacting
  }

  /** A sound index entry into file f names one of its records. */
  lemma EntryInFile(log: Log, k: Bytes, d: Dir) returns (i: nat)
    requires SoundAt(log, k, d)
    ensures d.loc.id in log && i < |log[d.loc.id]| && d.loc == LocOf(log, Pos(d.loc.id, i))
    ensures log[d.loc.id][i].key == k && log[d.loc.id][i].kind == SET && d.entrySize == Size(log[d.loc.id][i])
  {
    i := RecordAtIndex(RecordsOf(log, d.loc.id), d.loc.offset);
  }

  /** Record i of file f is copied by this round. */
  predicate Copies(s: Store, f: FileId, i: nat)
  {
    var rs := RecordsOf(s.log, f);
    i < |Seen(rs)| && rs[i].kind == SET && IsLive(s.mem.indices, rs[i].key, Location(f, Offset(rs, i)))
  }

  lemma RecordGenuine(env: Env, s: Store, f: FileId, i: nat)
    requires FilesOk(env, s) && f in s.log && i < |s.log[f]|
    ensures Storable(s.log[f][i]) && env.Validate(s.log[f][i]) && SizeOf(s.log[f][i]) == Size(s.log[f][i])
  {
    assert Genuine(env, s.log[f]);
  }

  /** A copy goes behind its record, in the same file or a later one. */
  lemma CopyGoesUp(log: Log, active: FileId, f: FileId, i: nat)
    requires f in log && IsLast(log, active) && i < |log[f]|
    ensures Location(f, Offset(log[f], i)).Less(EndOf(log, Target(log, active, Size(log[f][i]))))
  {
    var rs := log[f];
    OffsetMonotone(rs, i, |rs|);
    assert rs[..|rs|] == rs;
  }

  lemma CopyStepEffect(s: Store, f: FileId, i: nat)
    requires f in s.log && IsLast(s.log, s.active) && (i < |s.log[f]| ==> SizeOf(s.log[f][i]) == Size(s.log[f][i]))
    ensures if Copies(s, f, i)
            then var e, id, s' := s.log[f][i], Target(s.log, s.active, Size(s.log[f][i])), CopyStep(s, f, i);
                 && s' == s.(log := Appended(s.log, id, e), active := id,
                             mem := PublishCopy(s.mem, EndOf(s.log, id), e.key, Size(e)))
                 && s'.mem == s.mem.(indices := s.mem.indices[e.key := Dir(Size(e), EndOf(s.log, id))])
                 && s.mem.indices[e.key].loc.Less(EndOf(s.log, id))
            else CopyStep(s, f, i) == s
  {
    hide Total;
    if Copies(s, f, i) {
      var e := s.log[f][i];
      CopyGoesUp(s.log, s.active, f, i);
      PublishCopyEffect(s.mem, EndOf(s.log, Target(s.log, s.active, Size(e))), e.key, Size(e));
    }
  }

  lemma RoundEffect(env: Env, s: Store, f: FileId, i: nat)
    requires FilesOk(env, s) && f in s.log
    ensures if Copies(s, f, i)
            then var e, id, s' := s.log[f][i], Target(s.log, s.active, Size(s.log[f][i])), CopyStep(s, f, i);
                 && s' == s.(log := Appended(s.log, id, e), active := id,
                             mem := PublishCopy(s.mem, EndOf(s.log, id), e.key, Size(e)))
                 && s'.mem == s.mem.(indices := s.mem.indices[e.key := Dir(Size(e), EndOf(s.log, id))])
                 && s.mem.indices[e.key].loc.Less(EndOf(s.log, id)) && Storable(e) && env.Validate(e)
            else CopyStep(s, f, i) == s
  {
    hide Genuine, CopyStep, PublishCopy, Storable;
    if i < |s.log[f]| { RecordGenuine(env, s, f, i); }
    CopyStepEffect(s, f, i);
  }

  lemma CopyStepMem(env: Env, s: Store, f: FileId, i: nat)
    requires Compacts(env, s, f)
    ensures MemOk(CopyStep(s, f, i).log, CopyStep(s, f, i).mem, env.threshold, s.uncharged)
    ensures StateOf(CopyStep(s, f, i).mem, f).state == Compacting
  {
    hide MemOk, CopyStep, PublishCopy, Offset;
    RoundEffect(env, s, f, i);
    if Copies(s, f, i) {
      CopyKeeps(s.log, f, Target(s.log, s.active, Size(s.log[f][i])), s.log[f][i], s.mem, env.threshold, s.uncharged);
    }
  }

  lemma CopyStepKeeps(env: Env, s: Store, f: FileId, i: nat)
    requires Compacts(env, s, f)
    ensures Compacts(env, CopyStep(s, f, i), f) && s.active <= CopyStep(s, f, i).active
  {
    hide MemOk, CopyStep, PublishCopy, Genuine, Offset;
    RoundEffect(env, s, f, i);
    CopyStepMem(env, s, f, i);
    if Copies(s, f, i) {
      AppendFiles(env, s, s.log[f][i]);
      assert FilesOk(env, CopyStep(s, f, i));
    }
  }

  lemma ContentsAtLive(env: Env, log: Log, indices: map<Bytes, Dir>, f: FileId, i: nat)
    requires f in log && i < |log[f]| && IsLive(indices, log[f][i].key, Location(f, Offset(log[f], i)))
    ensures Contents(env, log, indices)[log[f][i].key := env.Plain(log[f][i].value)] == Contents(env, log, indices)
  {
    RecordAtOffset(log[f], i);
    assert StoredAt(log, Location(f, Offset(log[f], i))) == log[f][i].value;
  }

  /** The copy holds the same bytes as the record it replaces. */
  lemma CopyStepView(env: Env, s: Store, f: FileId, i: nat)
    requires Compacts(env, s, f)
    ensures View(env, CopyStep(s, f, i)) == View(env, s)
  {
    hide CopyStep, PublishCopy, Genuine, Contents, StoredAt;
    RoundEffect(env, s, f, i);
    if Copies(s, f, i) {
      ContentsMoved(env, s.log, Target(s.log, s.active, Size(s.log[f][i])), s.log[f][i], s.mem.indices);
      ContentsAtLive(env, s.log, s.mem.indices, f, i);
    }
  }

  // ---------------------------------------------------------------- how far the scan has got

  /** The number of records that n rounds have scanned, and the offset up to which. */
  function Scanned(s: Store, f: FileId, n: nat): (i: nat)
    ensures i <= |RecordsOf(s.log, f)|
  {
    var rs := RecordsOf(s.log, f);
    if n < |Seen(rs)| then n else |Seen(rs)|
  }

  function ScannedTo(s: Store, f: FileId, n: nat): (o: nat)
  {
    Offset(RecordsOf(s.log, f), Scanned(s, f, n))
  }

  /** How far the copying has got with a key that pointed to d and now points to d': if its record
      in file f starts below offset o, it has moved to a strictly greater location, behind the scan. */
  predicate Moved(d: Dir, d': Dir, f: FileId, o: nat, active: FileId)
  {
    if d.loc.id == f && d.loc.offset < o then
      && d'.entrySize == d.entrySize && d.loc.Less(d'.loc) && d'.loc.id >= active
      && (d'.loc.id == f ==> d'.loc.offset >= o)
    else d' == d
  }

  ghost predicate MovedBelow(a: map<Bytes, Dir>, b: map<Bytes, Dir>, f: FileId, o: nat, active: FileId)
  {
    a.Keys == b.Keys && forall k :: k in a ==> Moved(a[k], b[k], f, o, active)
  }

  /** Files only grow, from the active one on. */
  ghost predicate Grows(a: Log, b: Log, active: FileId)
  {
    && (forall g :: g in a ==> g in b && a[g] <= b[g] && (g < active ==> b[g] == a[g]))
    && (forall g :: g in b ==> g in a || g > active)
  }

  lemma AppendGrows(a: Log, b: Log, first: FileId, active: FileId, e: Entry)
    requires Grows(a, b, first) && IsLast(b, active) && active in b && first <= active
    ensures Grows(a, Appended(b, Target(b, active, Size(e)), e), first)
  {
    hide Total;
  }

  /** Appending keeps the scanned part of a file, and one seen record more has been scanned. */
  lemma ScanMoves(log: Log, id: FileId, e: Entry, f: FileId, i: nat)
    requires f in log && i < |Seen(log[f])| && Total(RecordsOf(log, id)) + Size(e) <= MAX_FILE_BYTES
    ensures var rs, rs' := log[f], RecordsOf(Appended(log, id, e), f);
            && i + 1 <= |Seen(rs')| && Offset(rs', i + 1) == Offset(rs, i) + Size(rs[i]) == Offset(rs, i + 1)
  {
    var rs := log[f];
    OffsetStep(rs, i);
    if id == f {
      TotalAppend(rs, e);
      assert (rs + [e])[..i + 1] == rs[..i + 1];
    }
  }

  lemma CopyStepScans(env: Env, s: Store, f: FileId, i: nat)
    requires FilesOk(env, s) && f in s.log
    ensures ScannedTo(s, f, i) <= ScannedTo(CopyStep(s, f, i), f, i + 1)
    ensures if i < |Seen(s.log[f])| then ScannedTo(s, f, i) == Offset(s.log[f], i) && ScannedTo(CopyStep(s, f, i), f, i + 1) == Offset(s.log[f], i + 1)
            else CopyStep(s, f, i) == s && ScannedTo(s, f, i + 1) == ScannedTo(s, f, i)
  {
    hide CopyStep, PublishCopy, Genuine, Total, Seen;
    RoundEffect(env, s, f, i);
    if i < |Seen(s.log[f])| {
      OffsetStep(s.log[f], i);
      if Copies(s, f, i) {
        TargetFits(env, s, s.log[f][i]);
        ScanMoves(s.log, Target(s.log, s.active, Size(s.log[f][i])), s.log[f][i], f, i);
      }
    }
  }

  lemma TargetFits(env: Env, s: Store, e: Entry)
    requires FilesOk(env, s) && Storable(e)
    ensures Total(RecordsOf(s.log, Target(s.log, s.active, Size(e)))) + Size(e) <= MAX_FILE_BYTES
  {
  }

  /** A key that this round does not move has its record elsewhere: if in file f, not at i. */
  lemma NotAt(s: Store, f: FileId, i: nat, k: Bytes, j: nat)
    requires f in s.log && i < |Seen(s.log[f])| && k in s.mem.indices && j < |s.log[f]|
    requires s.log[f][j].key == k && s.log[f][j].kind == SET && s.mem.indices[k].loc == Location(f, Offset(s.log[f], j))
    requires Copies(s, f, i) ==> s.log[f][i].key != k
    ensures j != i && (if j < i then Offset(s.log[f], j) < Offset(s.log[f], i) else Offset(s.log[f], i + 1) <= Offset(s.log[f], j))
  {
    hide Seen;
    if j < i {
      OffsetMonotone(s.log[f], j, i);
    } else if i < j {
      OffsetStep(s.log[f], i);
      OffsetMonotone(s.log[f], i, j);
    }
  }

  lemma CopyEnd(log: Log, f: FileId, i: nat)
    requires f in log && i < |log[f]|
    ensures Offset(log[f], i + 1) <= EndOf(log, f).offset
  {
    assert log[f][..|log[f]|] == log[f];
    OffsetStep(log[f], i);
    if i + 1 < |log[f]| { OffsetMonotone(log[f], i + 1, |log[f]|); }
  }

  lemma CopyStepMovesKey(env: Env, d0: Dir, s: Store, f: FileId, i: nat, k: Bytes, active: FileId)
    requires FilesOk(env, s) && f in s.log && active <= s.active && f <= active
    requires k in s.mem.indices && SoundAt(s.log, k, s.mem.indices[k])
    requires Moved(d0, s.mem.indices[k], f, ScannedTo(s, f, i), active)
    ensures var s' := CopyStep(s, f, i);
            k in s'.mem.indices && Moved(d0, s'.mem.indices[k], f, ScannedTo(s', f, i + 1), active)
  {
    hide FilesOk, CopyStep, PublishCopy, SoundAt, Seen, Total;
    RoundEffect(env, s, f, i);
    CopyStepScans(env, s, f, i);
    if i < |Seen(s.log[f])| {
      var j := EntryInFile(s.log, k, s.mem.indices[k]);
      OffsetStep(s.log[f], i);
      if Copies(s, f, i) && s.log[f][i].key == k {
        OffsetInjective(s.log[f], i, j);
        CopyEnd(s.log, f, i);
      } else if s.mem.indices[k].loc.id == f {
        NotAt(s, f, i, k, j);
      }
    }
  }

  // ---------------------------------------------------------------- any prefix of the loop

  lemma StartKeeps(env: Env, s: Store, f: FileId)
    requires Inv(env, s) && f in s.log && f !in s.mem.tasks
    ensures Compacts(env, StartCompact(s, f), f)
    ensures View(env, StartCompact(s, f)) == View(env, s)
  {
    var s' := StartCompact(s, f);
    forall g | StateOf(s'.mem, g).state != Compacting ensures Balanced(s'.log, s'.mem, s'.uncharged, g) {
      assert StateOf(s.mem, g) == StateOf(s'.mem, g);
      assert Balanced(s.log, s.mem, s.uncharged, g);
    }
    assert Scheduled(s'.mem, env.threshold);
    assert MemOk(s'.log, s'.mem, env.threshold, s'.uncharged);
    assert FilesOk(env, s');
  }

  /** Where n rounds started in s have got to: nothing a reader sees has changed, files have only
      grown, and exactly the keys whose records were passed have moved, to greater locations. */
  ghost predicate Progress(env: Env, s: Store, t: Store, f: FileId, n: nat)
  {
    && Compacts(env, t, f)
    && View(env, t) == View(env, s)
    && s.active <= t.active && Grows(s.log, t.log, s.active)
    && t.mem.tasks == s.mem.tasks && t.indexed == s.indexed && t.maxFile == s.maxFile
    && MovedBelow(s.mem.indices, t.mem.indices, f, ScannedTo(t, f, n), s.active)
  }

  lemma RoundKeepsRest(env: Env, s: Store, f: FileId, i: nat, a: Log, first: FileId)
    requires FilesOk(env, s) && f in s.log && first <= s.active && Grows(a, s.log, first)
    ensures var s' := CopyStep(s, f, i);
            && s'.mem.tasks == s.mem.tasks && s'.indexed == s.indexed && s'.maxFile == s.maxFile
            && s'.mem.indices.Keys == s.mem.indices.Keys && Grows(a, s'.log, first)
  {
    hide CopyStep, PublishCopy, Genuine, Grows;
    RoundEffect(env, s, f, i);
    if Copies(s, f, i) { AppendGrows(a, s.log, first, s.active, s.log[f][i]); }
  }

  lemma SameKeys(env: Env, s: Store, f: FileId, i: nat)
    requires Inv(env, s) && f in s.log
    ensures CopyStep(s, f, i).mem.indices.Keys == s.mem.indices.Keys
  {
    hide CopyStep, PublishCopy, Genuine, MemOk;
    RoundEffect(env, s, f, i);
  }

  lemma CopyStepMoves(env: Env, s: Store, t: Store, f: FileId, i: nat)
    requires Inv(env, t) && f in t.log && s.active <= t.active && f <= s.active
    requires MovedBelow(s.mem.indices, t.mem.indices, f, ScannedTo(t, f, i), s.active)
    ensures MovedBelow(s.mem.indices, CopyStep(t, f, i).mem.indices, f, ScannedTo(CopyStep(t, f, i), f, i + 1), s.active)
  {
    hide CopyStep, ScannedTo, FilesOk, Moved, SoundAt;
    SameKeys(env, t, f, i);
    var o, o' := ScannedTo(t, f, i), ScannedTo(CopyStep(t, f, i), f, i + 1);
    forall k | k in s.mem.indices
      ensures Moved(s.mem.indices[k], CopyStep(t, f, i).mem.indices[k], f, o', s.active)
    {
      assert Moved(s.mem.indices[k], t.mem.indices[k], f, o, s.active);
      assert SoundAt(t.log, k, t.mem.indices[k]);
      CopyStepMovesKey(env, s.mem.indices[k], t, f, i, k, s.active);
    }
  }

  lemma ProgressStep(env: Env, s: Store, t: Store, f: FileId, i: nat)
    requires f <= s.active && Progress(env, s, t, f, i)
    ensures Progress(env, s, CopyStep(t, f, i), f, i + 1)
  {
    hide CopyStep, Inv, View, MovedBelow, Grows, ScannedTo;
    CopyStepKeeps(env, t, f, i);
    CopyStepView(env, t, f, i);
    CopyStepMoves(env, s, t, f, i);
    FilesAre(env, t);
    RoundKeepsRest(env, t, f, i, s.log, s.active);
  }

  lemma FilesAre(env: Env, s: Store)
    requires Inv(env, s)
    ensures FilesOk(env, s)
  {
  }

  lemma CopyUpToSteps(s: Store, f: FileId, n: nat)
    ensures CopyUpTo(s, f, 0) == s
    ensures CopyUpTo(s, f, n + 1) == CopyStep(CopyUpTo(s, f, n), f, n)
  {
  }

  lemma ProgressStart(env: Env, s: Store, f: FileId)
    requires Compacts(env, s, f)
    ensures Progress(env, s, s, f, 0)
  {
    assert RecordsOf(s.log, f)[..0] == [];
  }

  lemma NotAbove(env: Env, s: Store, f: FileId)
    requires Compacts(env, s, f)
    ensures f <= s.active
  {
  }

  lemma {:induction false} CopyUpToKeeps(env: Env, s: Store, f: FileId, n: nat)
    requires Compacts(env, s, f)
    ensures Progress(env, s, CopyUpTo(s, f, n), f, n)
  {
    hide Compacts, Progress, CopyStep;
    NotAbove(env, s, f);
    if n == 0 {
      ProgressStart(env, s, f);
    } else {
      CopyUpToKeeps(env, s, f, n - 1);
      ProgressStep(env, s, CopyUpTo(s, f, n - 1), f, n - 1);
    }
  }

  /** Once the scan sees no more records, further rounds change nothing. */
  lemma {:induction false} ScanStops(s: Store, f: FileId, n: nat, m: nat)
    requires n <= m && |Seen(RecordsOf(CopyUpTo(s, f, n).log, f))| <= n
    ensures CopyUpTo(s, f, m) == CopyUpTo(s, f, n)
  {
    if n < m { ScanStops(s, f, n, m - 1); }
  }

  // ---------------------------------------------------------------- what is on disk

  /** In a store whose index points where replay has its keys, the record that is copied is its key's
      newest one, and the copies change nothing for the keys that are not live. */
  ghost predicate OnDisk(a: Log, s: Store, gone: set<FileId>)
  {
    Points(s.log, s.mem.indices) && SameDead(a, s.log, s.mem.indices.Keys, gone)
  }

  lemma PointsUpdated(log: Log, log': Log, indices: map<Bytes, Dir>, key: Bytes, d: Dir)
    requires Points(log, indices) && Replayed(log') == Replayed(log)[key := d] && key in indices
    ensures Points(log', indices[key := d]) && indices[key := d].Keys == indices.Keys
  {
    hide Replayed;
  }

  lemma CopyStepOnDisk(env: Env, a: Log, s: Store, f: FileId, i: nat, gone: set<FileId>)
    requires FilesOk(env, s) && f in s.log && OnDisk(a, s, gone)
    ensures OnDisk(a, CopyStep(s, f, i), gone)
  {
    hide CopyStep, PublishCopy, Genuine, SameDead, Replayed, Points, Appended;
    RoundEffect(env, s, f, i);
    if Copies(s, f, i) {
      var e, id := s.log[f][i], Target(s.log, s.active, Size(s.log[f][i]));
      AppendedReplayed(s.log, id, e);
      PointsUpdated(s.log, Appended(s.log, id, e), s.mem.indices, e.key, Dir(Size(e), EndOf(s.log, id)));
      AppendKeepsDead(a, s.log, s.mem.indices.Keys, gone, id, e);
    }
  }

  lemma {:induction false} CopyUpToOnDisk(env: Env, a: Log, s: Store, f: FileId, n: nat, gone: set<FileId>)
    requires Compacts(env, s, f) && OnDisk(a, s, gone)
    ensures OnDisk(a, CopyUpTo(s, f, n), gone)
  {
    hide Inv, OnDisk, CopyStep, View, MovedBelow, Grows;
    if n > 0 {
      CopyUpToOnDisk(env, a, s, f, n - 1, gone);
      CopyUpToKeeps(env, s, f, n - 1);
      FilesAre(env, CopyUpTo(s, f, n - 1));
      CopyStepOnDisk(env, a, CopyUpTo(s, f, n - 1), f, n - 1, gone);
    }
  }

  lemma DurableOnDisk(s: Store)
    requires Durable(s)
    ensures OnDisk(s.log, s, {})
  {
  }

  lemma AllKinds(env: Env, s: Store)
    requires FilesOk(env, s)
    ensures forall p :: At(s.log, p) ==> Rec(s.log, p).kind in {SET, DELETE}
  {
    forall p | At(s.log, p) ensures Rec(s.log, p).kind in {SET, DELETE} { RecordGenuine(env, s, p.id, p.i); }
  }

  lemma NothingGone(log: Log)
    ensures !ResurrectsAny(log, {})
  {
  }

  /** After any number of rounds the files still replay to the index. */
  lemma CopyUpToDurable(env: Env, s: Store, f: FileId, n: nat)
    requires Compacts(env, s, f) && Durable(s)
    ensures Durable(CopyUpTo(s, f, n))
  {
    hide Inv, View, Moved, Grows, CopyUpTo, SameDead, Points, ResurrectsAny, Replayed;
    FilesAre(env, s);
    AllKinds(env, s);
    DurableOnDisk(s);
    CopyUpToOnDisk(env, s.log, s, f, n, {});
    CopyUpToKeeps(env, s, f, n);
    NothingGone(s.log);
    ReplayAfterDrop(s.log, CopyUpTo(s, f, n).log, s.mem.indices, CopyUpTo(s, f, n).mem.indices, {});
  }

  /** A crash after any number of rounds is harmless: the files still replay to the map that was there
      before the compaction, of a sealed file or of the active one. */
  lemma CrashDuringCompact(env: Env, s: Store, f: FileId, n: nat)
    requires Inv(env, s) && f in s.log && f !in s.mem.tasks && Durable(s)
    ensures var s' := CopyUpTo(StartCompact(s, f), f, n);
            Contents(env, s'.log, Replayed(s'.log)) == View(env, s)
  {
    hide Inv, CopyUpTo, MovedBelow, Grows;
    StartKeeps(env, s, f);
    CopyUpToKeeps(env, StartCompact(s, f), f, n);
    CopyUpToDurable(env, StartCompact(s, f), f, n);
  }

  // ---------------------------------------------------------------- round and round

  /** Nothing is appended to the file any more. */
  predicate Closed(s: Store, f: FileId)
  {
    f < s.active || Total(RecordsOf(s.log, f)) >= MAX_FILE_BYTES
  }

  lemma EndsInFile(log: Log, k: Bytes, d: Dir)
    requires SoundAt(log, k, d)
    ensures d.loc.offset + d.entrySize <= Total(RecordsOf(log, d.loc.id))
  {
    var i := EntryInFile(log, k, d);
    var rs := log[d.loc.id];
    OffsetMonotone(rs, i, |rs|);
    assert rs[..|rs|] == rs;
  }

  lemma OpenIsNotBlind(env: Env, s: Store, f: FileId)
    requires Inv(env, s) && Total(RecordsOf(s.log, f)) < MAX_FILE_BYTES
    ensures !Blind(s, f)
  {
    forall k | k in s.mem.indices && s.mem.indices[k].loc.id == f
      ensures s.mem.indices[k].loc.offset + s.mem.indices[k].entrySize < MAX_FILE_BYTES
    {
      assert SoundAt(s.log, k, s.mem.indices[k]);
      EndsInFile(s.log, k, s.mem.indices[k]);
    }
  }

  /** A round leaves a closed file as it is, and an invisible live record invisible. */
  lemma ClosedStep(env: Env, s: Store, f: FileId, i: nat)
    requires Inv(env, s) && f in s.log && Closed(s, f)
    ensures var s' := CopyStep(s, f, i);
            Closed(s', f) && f in s'.log && s'.log[f] == s.log[f] && (Blind(s', f) <==> Blind(s, f))
  {
    hide CopyStep, PublishCopy, Genuine, Total, MemOk;
    RoundEffect(env, s, f, i);
    if Copies(s, f, i) {
      var e, s' := s.log[f][i], CopyStep(s, f, i);
      CopiedEndsBefore(env, s, f, i);
      BlindSame(s, s', f, e.key, s'.mem.indices[e.key]);
    }
  }

  lemma BlindSame(s: Store, s': Store, f: FileId, key: Bytes, d: Dir)
    requires key in s.mem.indices && s'.mem.indices == s.mem.indices[key := d] && d.loc.id != f
    requires s.mem.indices[key].loc.offset + s.mem.indices[key].entrySize != MAX_FILE_BYTES
    ensures Blind(s', f) <==> Blind(s, f)
  {
    if Blind(s, f) {
      var k :| k in s.mem.indices && s.mem.indices[k].loc.id == f
            && s.mem.indices[k].loc.offset + s.mem.indices[k].entrySize == MAX_FILE_BYTES;
      assert s'.mem.indices[k] == s.mem.indices[k];
    }
  }

  /** A record that is copied does not end at the end of the file. */
  lemma CopiedEndsBefore(env: Env, s: Store, f: FileId, i: nat)
    requires Inv(env, s) && f in s.log && Copies(s, f, i)
    ensures var d := s.mem.indices[s.log[f][i].key]; d.loc.offset + d.entrySize < MAX_FILE_BYTES
  {
    var k := s.log[f][i].key;
    assert SoundAt(s.log, k, s.mem.indices[k]);
    RecordAtOffset(s.log[f], i);
    VisibleEnd(s.log[f], i);
  }

  lemma LiveFrom(rs: seq<Entry>, f: FileId, indices: map<Bytes, Dir>, i: nat)
    ensures i < |rs| ==> LiveRecords(rs, f, indices, i) == LiveAt(rs, f, indices, i) + LiveRecords(rs, f, indices, i + 1)
    ensures i >= |rs| ==> LiveRecords(rs, f, indices, i) == []
  {
  }

  /** The copy of a live record changes nothing about the records ahead of it, and is live itself. */
  lemma LiveAppend(rs: seq<Entry>, f: FileId, indices: map<Bytes, Dir>, i0: nat, i: nat)
    requires i0 < i <= |rs| && rs[i0].kind == SET && IsLive(indices, rs[i0].key, Location(f, Offset(rs, i0)))
    ensures var e := rs[i0];
            LiveAt(rs + [e], f, indices[e.key := Dir(Size(e), Location(f, Total(rs)))], i) == (if i == |rs| then [e] else LiveAt(rs, f, indices, i))
  {
    hide Total, Size;
    var e := rs[i0];
    assert (rs + [e])[..i] == rs[..i];
    assert rs[..|rs|] == rs;
    if i < |rs| { Apart(rs, i0, i); }
  }

  lemma Apart(rs: seq<Entry>, i: nat, j: nat)
    requires i < j < |rs|
    ensures Offset(rs, i) < Offset(rs, j) < Total(rs)
  {
    OffsetMonotone(rs, i, j);
    OffsetMonotone(rs, j, |rs|);
    assert rs[..|rs|] == rs;
  }

  lemma {:induction false} LiveRecordsAppend(rs: seq<Entry>, f: FileId, indices: map<Bytes, Dir>, i0: nat, i: nat)
    requires i0 < i <= |rs| && rs[i0].kind == SET && IsLive(indices, rs[i0].key, Location(f, Offset(rs, i0)))
    ensures var e := rs[i0];
            LiveRecords(rs + [e], f, indices[e.key := Dir(Size(e), Location(f, Total(rs)))], i) == LiveRecords(rs, f, indices, i) + [e]
    decreases |rs| - i
  {
    hide Total, Size, IsLive, LiveAt, LiveRecords;
    var e := rs[i0];
    var rs', indices' := rs + [e], indices[e.key := Dir(Size(e), Location(f, Total(rs)))];
    LiveAppend(rs, f, indices, i0, i);
    LiveFrom(rs', f, indices', i);
    LiveFrom(rs, f, indices, i);
    if i == |rs| {
      LiveFrom(rs', f, indices', i + 1);
    } else {
      LiveRecordsAppend(rs, f, indices, i0, i + 1);
      assert LiveAt(rs, f, indices, i) + (LiveRecords(rs, f, indices, i + 1) + [e])
          == (LiveAt(rs, f, indices, i) + LiveRecords(rs, f, indices, i + 1)) + [e];
    }
  }

  /** What the whole scan will have come to: as long as the file grows, what lies ahead decides it. */
  ghost predicate Turning(s: Store, f: FileId, n: nat, filled: bool)
  {
    if Closed(s, f) then Blind(s, f) == filled
    else
      var rs := RecordsOf(s.log, f);
      Fills(MAX_FILE_BYTES - Total(rs), LiveRecords(rs, f, s.mem.indices, Scanned(s, f, n))) == filled
  }

  lemma OpenStays(env: Env, s: Store, s': Store, f: FileId, key: Bytes)
    requires Inv(env, s) && Total(RecordsOf(s.log, f)) < MAX_FILE_BYTES
    requires key in s'.mem.indices && s'.mem.indices == s.mem.indices[key := s'.mem.indices[key]] && s'.mem.indices[key].loc.id != f
    ensures !Blind(s', f)
  {
    OpenIsNotBlind(env, s, f);
  }

  /** A copy that fits goes behind what lies ahead; one that fills the file will not be seen. */
  lemma TurnFits(env: Env, s: Store, f: FileId, n: nat)
    requires FilesOk(env, s) && f in s.log && !Closed(s, f) && Copies(s, f, n)
    requires Total(s.log[f]) + Size(s.log[f][n]) <= MAX_FILE_BYTES
    ensures var rs, e, s' := s.log[f], s.log[f][n], CopyStep(s, f, n);
            && f in s'.log && Total(s'.log[f]) == Total(rs) + Size(e) && s'.active == f
            && (Total(rs) + Size(e) == MAX_FILE_BYTES ==> Blind(s', f))
            && LiveRecords(s'.log[f], f, s'.mem.indices, n + 1) == LiveRecords(rs, f, s.mem.indices, n + 1) + [e]
  {
    hide CopyStep, PublishCopy, Genuine, Total;
    RoundEffect(env, s, f, n);
    var rs, e, s' := s.log[f], s.log[f][n], CopyStep(s, f, n);
    TotalAppend(rs, e);
    LiveRecordsAppend(rs, f, s.mem.indices, n, n + 1);
    assert s'.log[f] == rs + [e];
    assert s'.mem.indices[e.key] == Dir(Size(e), Location(f, Total(rs)));
  }

  lemma TurnRolls(env: Env, s: Store, f: FileId, n: nat)
    requires Inv(env, s) && f in s.log && !Closed(s, f) && Copies(s, f, n)
    requires Total(s.log[f]) + Size(s.log[f][n]) > MAX_FILE_BYTES
    ensures Closed(CopyStep(s, f, n), f) && !Blind(CopyStep(s, f, n), f)
  {
    hide CopyStep, PublishCopy, Genuine, Total, MemOk, Blind;
    RoundEffect(env, s, f, n);
    OpenStays(env, s, CopyStep(s, f, n), f, s.log[f][n].key);
  }

  lemma TurnCopy(env: Env, s: Store, f: FileId, n: nat, filled: bool)
    requires Inv(env, s) && f in s.log && !Closed(s, f) && Copies(s, f, n) && Turning(s, f, n, filled)
    ensures Turning(CopyStep(s, f, n), f, n + 1, filled)
  {
    hide CopyStep, Inv, Total;
    FilesAre(env, s);
    var rs, e := s.log[f], s.log[f][n];
    assert LiveRecords(rs, f, s.mem.indices, n) == [e] + LiveRecords(rs, f, s.mem.indices, n + 1);
    if Total(rs) + Size(e) <= MAX_FILE_BYTES {
      TurnFits(env, s, f, n);
    } else {
      TurnRolls(env, s, f, n);
    }
  }

  lemma TurnSkip(env: Env, s: Store, f: FileId, n: nat, filled: bool)
    requires FilesOk(env, s) && f in s.log && !Closed(s, f) && !Copies(s, f, n) && Turning(s, f, n, filled)
    ensures Turning(CopyStep(s, f, n), f, n + 1, filled)
  {
    OpenScanned(s, f, n);
    hide CopyStep, Fills, Genuine, LiveRecords, Scanned, Copies, Total;
    RoundEffect(env, s, f, n);
  }

  /** In a file that grows every record is seen. */
  lemma OpenScanned(s: Store, f: FileId, n: nat)
    requires f in s.log && !Closed(s, f)
    ensures Scanned(s, f, n) == (if n < |s.log[f]| then n else |s.log[f]|)
    ensures !Copies(s, f, n) ==> LiveRecords(s.log[f], f, s.mem.indices, Scanned(s, f, n + 1)) == LiveRecords(s.log[f], f, s.mem.indices, Scanned(s, f, n))
  {
  }

  lemma TurnStep(env: Env, s: Store, f: FileId, n: nat, filled: bool)
    requires Inv(env, s) && f in s.log && Turning(s, f, n, filled)
    ensures Turning(CopyStep(s, f, n), f, n + 1, filled)
  {
    FilesAre(env, s);
    hide Inv, FilesOk, CopyStep, Fills, Copies, LiveRecords;
    if Closed(s, f) {
      ClosedStep(env, s, f, n);
    } else if Copies(s, f, n) {
      TurnCopy(env, s, f, n, filled);
    } else {
      TurnSkip(env, s, f, n, filled);
    }
  }

  lemma {:induction false} Turns(env: Env, s: Store, f: FileId, n: nat, filled: bool)
    requires Compacts(env, s, f) && Turning(s, f, 0, filled)
    ensures Turning(CopyUpTo(s, f, n), f, n, filled)
  {
    hide Inv, Turning, CopyStep, View, MovedBelow, Grows;
    if n > 0 {
      Turns(env, s, f, n - 1, filled);
      CopyUpToKeeps(env, s, f, n - 1);
      TurnStep(env, CopyUpTo(s, f, n - 1), f, n - 1, filled);
    }
  }

  // ---------------------------------------------------------------- a whole compaction

  lemma CopiedKeeps(env: Env, s: Store, f: FileId)
    requires Inv(env, s) && f in s.log && f !in s.mem.tasks
    ensures Progress(env, s, Copied(s, f), f, RECORDS_PER_FILE)
  {
    hide CopyUpTo;
    StartKeeps(env, s, f);
    CopyUpToKeeps(env, StartCompact(s, f), f, RECORDS_PER_FILE);
  }

  /** After that many rounds the scan has reached its end. */
  lemma ScanEnds(env: Env, t: Store, f: FileId, n: nat)
    requires FilesOk(env, t) && f in t.log && n >= RECORDS_PER_FILE
    ensures Scanned(t, f, n) == |Seen(t.log[f])|
  {
    RecordCount(t.log[f]);
  }

  /** A live record behind the end of the scan ends at the end of the file. */
  lemma UnscannedIsBlind(env: Env, t: Store, f: FileId, k: Bytes)
    requires FilesOk(env, t) && f in t.log && k in t.mem.indices && SoundAt(t.log, k, t.mem.indices[k])
    requires t.mem.indices[k].loc.id == f && t.mem.indices[k].loc.offset >= ScannedTo(t, f, RECORDS_PER_FILE)
    ensures t.mem.indices[k].loc.offset + t.mem.indices[k].entrySize == MAX_FILE_BYTES
  {
    hide Genuine, Total;
    ScanEnds(env, t, f, RECORDS_PER_FILE);
    var rs := t.log[f];
    var i := EntryInFile(t.log, k, t.mem.indices[k]);
    if i < |Seen(rs)| { OffsetMonotone(rs, i, |Seen(rs)|); }
    VisibleEnd(rs, i);
    EndsInFile(t.log, k, t.mem.indices[k]);
  }

  /** What a compaction does to the index: keys that pointed elsewhere stay; those that pointed into
      the file have moved to strictly greater locations, and what is left in the file the scan cannot
      see. */
  lemma CompactMoves(env: Env, s: Store, f: FileId)
    requires Inv(env, s) && f in s.log && f !in s.mem.tasks
    ensures var a, b := s.mem.indices, Compact(s, f).mem.indices;
            && a.Keys == b.Keys
            && forall k :: k in a ==>
                 if a[k].loc.id != f then b[k] == a[k]
                 else && b[k].entrySize == a[k].entrySize
                      && (b[k] == a[k] || (a[k].loc.Less(b[k].loc) && b[k].loc.id >= s.active))
                      && (b[k].loc.id == f ==> b[k].loc.offset + b[k].entrySize == MAX_FILE_BYTES)
  {
    hide Copied, ScannedTo, View, Grows;
    CopiedKeeps(env, s, f);
    var a, t := s.mem.indices, Copied(s, f);
    var o := ScannedTo(t, f, RECORDS_PER_FILE);
    forall k | k in a && a[k].loc.id == f
      ensures t.mem.indices[k].loc.id == f ==> t.mem.indices[k].loc.offset + t.mem.indices[k].entrySize == MAX_FILE_BYTES
    {
      assert Moved(a[k], t.mem.indices[k], f, o, s.active);
      if t.mem.indices[k].loc.id == f {
        assert SoundAt(t.log, k, t.mem.indices[k]);
        UnscannedIsBlind(env, t, f, k);
      }
    }
    forall k | k in a ensures Moved(a[k], t.mem.indices[k], f, o, s.active) {}
  }

  /** A compaction leaves the other files alone. */
  lemma CompactSparesOthers(env: Env, s: Store, f: FileId)
    requires Inv(env, s) && f in s.log && f !in s.mem.tasks
    ensures var t := Compact(s, f);
            && (forall g :: g in s.log && g != f ==> g in t.log)
            && (forall g :: g in t.log ==> (g in s.log && g != f) || g > s.active)
            && s.active <= t.active && t.mem.tasks == s.mem.tasks && t.mem.indices.Keys == s.mem.indices.Keys
  {
    hide CopyUpTo, Inv, View, Moved, Copied;
    CopiedKeeps(env, s, f);
    assert Compact(s, f).log == Removed(Copied(s, f).log, f);
  }

  lemma NothingLeft(env: Env, s: Store, f: FileId)
    requires Inv(env, s) && f in s.log && f !in s.mem.tasks && !Blind(Copied(s, f), f)
    ensures forall k :: k in Copied(s, f).mem.indices ==> Copied(s, f).mem.indices[k].loc.id != f
  {
    hide Copied, Inv;
    CompactMoves(env, s, f);
    var c := Copied(s, f);
    assert Compact(s, f).mem.indices == c.mem.indices;
  }

  lemma DropKeepsInv(env: Env, c: Store, f: FileId)
    requires Compacts(env, c, f) && f < c.active && forall k :: k in c.mem.indices ==> c.mem.indices[k].loc.id != f
    ensures Inv(env, DropFile(c, f))
  {
    ForgetKeeps(c.log, f, c.mem, env.threshold, c.uncharged);
    assert FilesOk(env, DropFile(c, f));
  }

  /** Some key points into file f. */
  ghost predicate PointsInto(s: Store, f: FileId)
  {
    exists k :: k in s.mem.indices && s.mem.indices[k].loc.id == f
  }

  lemma {:induction false} NothingToCopy(env: Env, s: Store, f: FileId, n: nat)
    requires FilesOk(env, s) && f in s.log && !PointsInto(s, f)
    ensures CopyUpTo(s, f, n) == s
  {
    hide CopyStep;
    if n > 0 {
      NothingToCopy(env, s, f, n - 1);
      RoundEffect(env, s, f, n - 1);
    }
  }

  lemma InFiles(env: Env, s: Store, k: Bytes)
    requires Inv(env, s) && k in s.mem.indices
    ensures s.mem.indices[k].loc.id <= s.active
  {
    assert SoundAt(s.log, k, s.mem.indices[k]);
    var i := EntryInFile(s.log, k, s.mem.indices[k]);
  }

  lemma PointedRolls(env: Env, s: Store, f: FileId)
    requires Inv(env, s) && f in s.log && f == s.active && f !in s.mem.tasks && PointsInto(s, f) && !Blind(Copied(s, f), f)
    ensures f < Copied(s, f).active
  {
    hide Copied, Compact, Blind, Inv;
    CopiedKeeps(env, s, f);
    NothingLeft(env, s, f);
    CompactMoves(env, s, f);
    var k :| k in s.mem.indices && s.mem.indices[k].loc.id == f;
    SameIndices(s, f);
    InFiles(env, Copied(s, f), k);
  }

  lemma SameIndices(s: Store, f: FileId)
    requires f in s.log
    ensures Compact(s, f).mem.indices == Copied(s, f).mem.indices
  {
    hide Copied;
  }

  lemma UnpointedStays(env: Env, s: Store, f: FileId)
    requires Inv(env, s) && f in s.log && f !in s.mem.tasks && !PointsInto(s, f)
    ensures Copied(s, f).active == s.active
  {
    hide CopyUpTo, View;
    StartKeeps(env, s, f);
    NothingToCopy(env, StartCompact(s, f), f, RECORDS_PER_FILE);
  }

  /** The file that appends go to has changed, so that the compacted file can go, exactly if it was
      sealed before or had something to copy, unless the scan could not see it. */
  lemma RollsOver(env: Env, s: Store, f: FileId)
    requires Inv(env, s) && f in s.log && f !in s.mem.tasks
    ensures !Blind(Copied(s, f), f) ==> (f < Copied(s, f).active <==> f < s.active || PointsInto(s, f))
  {
    hide Copied, View, Blind, Inv, PointsInto, Grows, MovedBelow;
    CopiedKeeps(env, s, f);
    InLog(env, s, f);
    if !Blind(Copied(s, f), f) && f == s.active {
      if PointsInto(s, f) {
        PointedRolls(env, s, f);
      } else {
        UnpointedStays(env, s, f);
      }
    }
  }

  lemma InLog(env: Env, s: Store, f: FileId)
    requires Inv(env, s) && f in s.log
    ensures f <= s.active
  {
  }

  /** The scan has lost a live record, or the file that appends go to. */
  lemma DropLoses(env: Env, s: Store, c: Store, f: FileId)
    requires Compacts(env, c, f) && (Blind(c, f) || f >= c.active)
    ensures !Inv(env, DropFile(c, f))
  {
    if Blind(c, f) {
      var k :| k in c.mem.indices && c.mem.indices[k].loc.id == f
            && c.mem.indices[k].loc.offset + c.mem.indices[k].entrySize == MAX_FILE_BYTES;
      assert RecordsOf(DropFile(c, f).log, f) == [];
      assert !SoundAt(DropFile(c, f).log, k, DropFile(c, f).mem.indices[k]);
    }
  }

  /** A compaction keeps the store's invariant exactly when the file was sealed or held something
      live, and no live record is left in it where the scan does not see it. */
  lemma CompactKeepsInvIf(env: Env, s: Store, f: FileId)
    requires Inv(env, s) && f in s.log && f !in s.mem.tasks
    ensures Inv(env, Compact(s, f)) <==> (f < s.active || PointsInto(s, f)) && !Blind(Copied(s, f), f)
  {
    hide Copied, View, Blind, Inv, PointsInto, Grows;
    CopiedKeeps(env, s, f);
    RollsOver(env, s, f);
    if !Blind(Copied(s, f), f) && f < Copied(s, f).active {
      NothingLeft(env, s, f);
      DropKeepsInv(env, Copied(s, f), f);
    } else {
      DropLoses(env, s, Copied(s, f), f);
      NotAbove(env, Copied(s, f), f);
    }
  }

  /** The scan will come to leave a live record unseen. */
  ghost predicate WillBlind(s: Store, f: FileId)
  {
    var rs := RecordsOf(s.log, f);
    if Closed(s, f) then Blind(s, f) else Fills(MAX_FILE_BYTES - Total(rs), LiveRecords(rs, f, s.mem.indices, 0))
  }

  lemma TurningStarts(s: Store, f: FileId)
    ensures Turning(s, f, 0, WillBlind(s, f))
  {
    hide Fills, LiveRecords, Blind;
  }

  lemma TurningEnds(env: Env, c: Store, f: FileId, filled: bool)
    requires Inv(env, c) && f in c.log && Turning(c, f, RECORDS_PER_FILE, filled)
    ensures Blind(c, f) == filled
  {
    hide Blind, MemOk, Genuine;
    if !Closed(c, f) {
      OpenIsNotBlind(env, c, f);
      ScanEnds(env, c, f, RECORDS_PER_FILE);
    }
  }

  lemma BlindIsTurned(env: Env, s: Store, f: FileId)
    requires Inv(env, s) && f in s.log && f !in s.mem.tasks
    ensures Blind(Copied(s, f), f) <==> WillBlind(StartCompact(s, f), f)
  {
    hide CopyUpTo, View, Grows, MovedBelow, Inv, Turning, Blind, StartCompact, WillBlind;
    StartKeeps(env, s, f);
    CopiedKeeps(env, s, f);
    TurningStarts(StartCompact(s, f), f);
    Turns(env, StartCompact(s, f), f, RECORDS_PER_FILE, WillBlind(StartCompact(s, f), f));
    TurningEnds(env, Copied(s, f), f, WillBlind(StartCompact(s, f), f));
  }

  /** What is left unseen at the end of the scan was unseen before, or is a copy that fills the file. */
  lemma BlindAfter(env: Env, s: Store, f: FileId)
    requires Inv(env, s) && f in s.log && f !in s.mem.tasks
    ensures Blind(Copied(s, f), f) <==>
              Blind(s, f)
              || (f == s.active && Total(s.log[f]) <= MAX_FILE_BYTES
                  && Fills(MAX_FILE_BYTES - Total(s.log[f]), LiveRecords(s.log[f], f, s.mem.indices, 0)))
  {
    hide Copied, MemOk, LiveRecords, Genuine, Total;
    BlindIsTurned(env, s, f);
    StartBlind(s, f);
    if !Closed(s, f) { OpenIsNotBlind(env, s, f); }
  }

  lemma StartBlind(s: Store, f: FileId)
    ensures WillBlind(StartCompact(s, f), f) == WillBlind(s, f)
  {
    hide Fills, LiveRecords;
    var t := StartCompact(s, f);
    assert t.mem.indices == s.mem.indices && t.log == s.log && t.active == s.active;
    assert Blind(t, f) == Blind(s, f);
  }

  lemma {:induction false} LiveExists(rs: seq<Entry>, f: FileId, indices: map<Bytes, Dir>, i: nat)
    ensures LiveRecords(rs, f, indices, i) != [] <==>
              exists j :: i <= j < |rs| && rs[j].kind == SET && IsLive(indices, rs[j].key, Location(f, Offset(rs, j)))
    decreases |rs| - i
  {
    hide IsLive, Total, LiveRecords;
    LiveFrom(rs, f, indices, i);
    if i < |rs| { LiveExists(rs, f, indices, i + 1); }
  }

  lemma PointsIntoIs(env: Env, s: Store, f: FileId)
    requires Inv(env, s) && f in s.log
    ensures PointsInto(s, f) <==> LiveRecords(s.log[f], f, s.mem.indices, 0) != []
  {
    hide LiveRecords, Total;
    LiveExists(s.log[f], f, s.mem.indices, 0);
    if k :| k in s.mem.indices && s.mem.indices[k].loc.id == f {
      assert SoundAt(s.log, k, s.mem.indices[k]);
      var j := EntryInFile(s.log, k, s.mem.indices[k]);
    }
  }

  /** Compacting a file keeps the store's invariant exactly when it is safe, which a caller can check:
      the file holds no live record that fills it to its last byte; and if it is the active file, some
      record in it is live, and appending its live records round and round does not fill it exactly. */
  lemma CompactKeepsInv(env: Env, s: Store, f: FileId)
    requires Inv(env, s) && f in s.log && f !in s.mem.tasks
    ensures Inv(env, Compact(s, f)) <==> Safe(s, f)
  {
    FilesAre(env, s);
    hide Inv, Copied, Compact, LiveRecords, Fills, Blind, PointsInto, Genuine;
    CompactKeepsInvIf(env, s, f);
    BlindAfter(env, s, f);
    PointsIntoIs(env, s, f);
  }

  lemma SafeMeans(s: Store, f: FileId)
    requires f in s.log && Safe(s, f)
    ensures !Blind(s, f)
    ensures f == s.active ==>
              && LiveRecords(s.log[f], f, s.mem.indices, 0) != []
              && Total(s.log[f]) <= MAX_FILE_BYTES
              && !Fills(MAX_FILE_BYTES - Total(s.log[f]), LiveRecords(s.log[f], f, s.mem.indices, 0))
  {
    hide LiveRecords, Fills, Blind, Total;
  }

  lemma SafeIs(env: Env, s: Store, f: FileId)
    requires Inv(env, s) && f in s.log && f !in s.mem.tasks && Safe(s, f)
    ensures f < Copied(s, f).active && !Blind(Copied(s, f), f)
  {
    hide Inv, Safe, Copied, LiveRecords, Fills, Blind, PointsInto, Total;
    SafeMeans(s, f);
    InLog(env, s, f);
    BlindAfter(env, s, f);
    PointsIntoIs(env, s, f);
    RollsOver(env, s, f);
  }

  lemma DropKeepsView(env: Env, c: Store, f: FileId)
    requires forall k :: k in c.mem.indices ==> c.mem.indices[k].loc.id != f
    ensures View(env, DropFile(c, f)) == View(env, c)
  {
    forall k | k in c.mem.indices
      ensures StoredAt(c.log, c.mem.indices[k].loc) == StoredAt(Removed(c.log, f), c.mem.indices[k].loc)
    {
      assert c.mem.indices[k].loc.id != f;
    }
    ContentsSame(env, c.log, Removed(c.log, f), c.mem.indices, c.mem.indices);
  }

  /** A safe compaction changes nothing a reader sees. */
  lemma CompactKeepsView(env: Env, s: Store, f: FileId)
    requires Inv(env, s) && f in s.log && f !in s.mem.tasks && Safe(s, f)
    ensures View(env, Compact(s, f)) == View(env, s)
  {
    hide Copied, Inv, View, Safe, Blind, MovedBelow, Grows;
    CopiedKeeps(env, s, f);
    SafeIs(env, s, f);
    NothingLeft(env, s, f);
    DropKeepsView(env, Copied(s, f), f);
  }

  /** It moves live records and drops the file, and nothing else. */
  lemma CompactOnDisk(env: Env, a: Log, s: Store, f: FileId, gone: set<FileId>)
    requires Inv(env, s) && f in s.log && f !in s.mem.tasks && Safe(s, f) && OnDisk(a, s, gone)
    ensures OnDisk(a, Compact(s, f), gone + {f}) && Compact(s, f).mem.indices.Keys == s.mem.indices.Keys
  {
    hide CopyUpTo, Inv, View, Safe, Blind, Moved, Grows, Points, SameDead;
    CopiedKeeps(env, s, f);
    SafeIs(env, s, f);
    NothingLeft(env, s, f);
    StartKeeps(env, s, f);
    CopyUpToOnDisk(env, a, StartCompact(s, f), f, RECORDS_PER_FILE, gone);
    var c := Copied(s, f);
    RemoveKeepsPoints(c.log, f, c.mem.indices);
    RemoveKeepsDead(a, c.log, c.mem.indices.Keys, gone, f);
  }

  /** What is on disk after the file is gone replays to the same index exactly when no tombstone in
      the file still hides a Set in another file. */
  lemma CompactKeepsDurable(env: Env, s: Store, f: FileId)
    requires Inv(env, s) && f in s.log && f !in s.mem.tasks && Safe(s, f) && Durable(s)
    ensures Durable(Compact(s, f)) <==> !Resurrects(s.log, f)
  {
    hide Compact, Inv, View, Safe, Points, SameDead, Replayed, ResurrectsAny;
    FilesAre(env, s);
    AllKinds(env, s);
    DurableOnDisk(s);
    CompactOnDisk(env, s.log, s, f, {});
    assert {} + {f} == {f};
    ReplayAfterDrop(s.log, Compact(s, f).log, s.mem.indices, Compact(s, f).mem.indices, {f});
  }

  /** In particular, the oldest remaining file can always go. */
  lemma CompactOldest(env: Env, s: Store, f: FileId)
    requires Inv(env, s) && f in s.log && f !in s.mem.tasks && Safe(s, f) && Durable(s)
    requires forall g :: g in s.log ==> f <= g
    ensures Durable(Compact(s, f))
  {
    OldestNeverResurrects(s.log, f);
    CompactKeepsDurable(env, s, f);
  }
}

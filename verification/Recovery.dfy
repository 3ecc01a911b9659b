/** Rebuilding the memory from the data files when the store is opened (src/db_impl.cc, Recovery). */
module Recovery {
  import opened Basics
  import opened RecordFormat
  import opened RecordScan
  import opened Log
  import opened Accounting
  import opened Store

  const NO_MEM := Mem(map[], map[], [])

  /** Replaying the first n records of file id into m. */
  function RecoverFile(m: Mem, threshold: nat, id: FileId, rs: seq<Entry>, n: nat): (m': Mem)
    requires n <= |rs|
  {
    if n == 0 then m
    else
      var e := rs[n - 1];
      Recover(RecoverFile(m, threshold, id, rs, n - 1), threshold, Location(id, Offset(rs, n - 1)), e.kind, e.key, Size(e))
  }

  lemma {:induction false} LastExists(log: Log)
    requires log != map[]
    ensures exists id :: id in log && IsLast(log, id)
    decreases |log|
  {
    var f :| f in log;
    var rest := log - {f};
    if rest == map[] {
      assert forall g :: g in log ==> g == f || g in rest;
      assert IsLast(log, f);
    } else {
      LastExists(rest);
      var g :| g in rest && IsLast(rest, g);
      assert forall h :: h in log ==> h == f || h in rest;
      assert IsLast(log, if f < g then g else f);
    }
  }

  ghost function LastFile(log: Log): (id: FileId)
    requires log != map[]
    ensures id in log && IsLast(log, id)
  {
    LastExists(log);
    var id :| id in log && IsLast(log, id);
    id
  }

  /** Replaying all files in ascending order of their ids. */
  ghost function RecoverAll(log: Log, threshold: nat): (m: Mem)
    decreases |log|
  {
    if log == map[] then NO_MEM
    else
      var id := LastFile(log);
      RecoverFile(RecoverAll(Removed(log, id), threshold), threshold, id, log[id], |log[id]|)
  }

  /** A memory that replay has built for a log: its index is the log's, all its bytes are charged. */
  ghost predicate Rebuilt(log: Log, m: Mem, threshold: nat)
  {
    && MemOk(log, m, threshold, map[])
    && m.indices == Replayed(log)
    && forall g :: StateOf(m, g).state != Compacting
  }

  predicate KindsOk(rs: seq<Entry>)
  {
    forall i :: 0 <= i < |rs| ==> rs[i].kind in {SET, DELETE}
  }

  lemma EmptyFileWinner(log: Log, id: FileId, p: Pos)
    requires id !in log
    ensures Winner(log[id := []], p) <==> Winner(log, p)
  {
    var log' := log[id := []];
    assert forall q :: At(log', q) <==> At(log, q);
  }

  lemma EmptyFileReplayed(log: Log, id: FileId)
    requires id !in log
    ensures Replayed(log[id := []]) == Replayed(log)
  {
    var log' := log[id := []];
    var w, w' := Winners(log), Winners(log');
    forall k | k in w ensures k in w' && w'[k] == w[k] && DirOf(log', w[k]) == DirOf(log, w[k]) {
      EmptyFileWinner(log, id, w[k]);
    }
    forall k | k in w' ensures k in w {
      EmptyFileWinner(log, id, w'[k]);
    }
    SameMap(Replayed(log), Replayed(log'));
  }

  lemma SameRecords(log: Log, log': Log, m: Mem, threshold: nat, u: map<FileId, nat>)
    requires MemOk(log, m, threshold, u) && log.Keys <= log'.Keys
    requires forall f :: RecordsOf(log', f) == RecordsOf(log, f)
    ensures MemOk(log', m, threshold, u)
  {
    hide RecordsOf, Scheduled, LiveBytes, Total;
    forall k | k in m.indices ensures SoundAt(log', k, m.indices[k]) {
      assert SoundAt(log, k, m.indices[k]);
    }
    forall f | StateOf(m, f).state != Compacting ensures Balanced(log', m, u, f) {
      assert Balanced(log, m, u, f);
    }
  }

  lemma EmptyFileRebuilt(log: Log, m: Mem, threshold: nat, id: FileId)
    requires id !in log && Rebuilt(log, m, threshold)
    ensures Rebuilt(log[id := []], m, threshold)
  {
    hide MemOk;
    EmptyFileReplayed(log, id);
    SameRecords(log, log[id := []], m, threshold, map[]);
  }

  lemma RecoverRebuilt(log: Log, id: FileId, e: Entry, m: Mem, threshold: nat)
    requires Rebuilt(log, m, threshold) && IsLast(log, id) && e.kind in {SET, DELETE}
    ensures Rebuilt(Appended(log, id, e), Recover(m, threshold, EndOf(log, id), e.kind, e.key, Size(e)), threshold)
  {
    RecoverKeeps(log, id, e, m, threshold, map[]);
    RecoverEffect(m, threshold, EndOf(log, id), e.kind, e.key, Size(e));
    AppendedReplayed(log, id, e);
  }

  lemma NextPart(log: Log, id: FileId, rs: seq<Entry>, i: nat)
    requires i < |rs|
    ensures Appended(log[id := rs[..i]], id, rs[i]) == log[id := rs[..i + 1]]
    ensures EndOf(log[id := rs[..i]], id) == Location(id, Offset(rs, i))
  {
    assert rs[..i + 1] == rs[..i] + [rs[i]];
  }

  lemma RecoverNext(part: Log, next: Log, id: FileId, e: Entry, loc: Location, m: Mem, m': Mem, threshold: nat)
    requires Rebuilt(part, m, threshold) && IsLast(part, id) && e.kind in {SET, DELETE}
    requires next == Appended(part, id, e) && loc == EndOf(part, id)
    requires m' == Recover(m, threshold, loc, e.kind, e.key, Size(e))
    ensures Rebuilt(next, m', threshold)
  {
    RecoverRebuilt(part, id, e, m, threshold);
  }

  lemma {:induction false} RecoverFileRebuilt(log: Log, id: FileId, rs: seq<Entry>, n: nat, m: Mem, threshold: nat)
    requires id !in log && IsLast(log, id) && n <= |rs| && KindsOk(rs) && Rebuilt(log, m, threshold)
    ensures Rebuilt(log[id := rs[..n]], RecoverFile(m, threshold, id, rs, n), threshold)
  {
    if n == 0 {
      EmptyFileRebuilt(log, m, threshold, id);
    } else {
      RecoverFileRebuilt(log, id, rs, n - 1, m, threshold);
      NextPart(log, id, rs, n - 1);
      RecoverNext(log[id := rs[..n - 1]], log[id := rs[..n]], id, rs[n - 1], Location(id, Offset(rs, n - 1)),
                  RecoverFile(m, threshold, id, rs, n - 1), RecoverFile(m, threshold, id, rs, n), threshold);
    }
  }

  /** Replaying all records in ascending order rebuilds exactly the index the log stands for, with
      every byte of every file live or charged as free and the compaction queue exact. */
  lemma {:induction false} RecoverAllRebuilt(log: Log, threshold: nat)
    requires forall f :: f in log ==> KindsOk(log[f])
    ensures Rebuilt(log, RecoverAll(log, threshold), threshold)
    decreases |log|
  {
    if log == map[] {
      NothingRebuilt(threshold);
    } else {
      var id := LastFile(log);
      var rest := Removed(log, id);
      RecoverAllRebuilt(rest, threshold);
      RecoverFileRebuilt(rest, id, log[id], |log[id]|, RecoverAll(rest, threshold), threshold);
      assert log[id][..|log[id]|] == log[id];
      assert rest[id := log[id]] == log;
    }
  }

  lemma NothingRebuilt(threshold: nat)
    ensures Rebuilt(map[], NO_MEM, threshold)
  {
    var none: Log := map[];
    assert forall k :: k !in Replayed(none);
    forall f ensures Balanced(none, NO_MEM, map[], f) {}
  }

  // ---------------------------------------------------------------- reopening a store

  /** The records recovery reads: from the index file where there is one, by scanning elsewhere. */
  function SeenLog(log: Log, indexed: set<FileId>): (seen: Log)
  {
    map f | f in log :: if f in indexed then log[f] else Seen(log[f])
  }

  /** Recovery reads the same records, so rebuilds the same index, free-byte counts and queue,
      whichever files it recovers from an index file, except for files filled to their last byte. */
  lemma IndexFilesAgree(log: Log, a: set<FileId>, b: set<FileId>, threshold: nat)
    ensures SeenLog(log, a) == SeenLog(log, b) <==>
              forall f :: f in log && Total(log[f]) == MAX_FILE_BYTES ==> (f in a <==> f in b)
    ensures (forall f :: f in log && Total(log[f]) == MAX_FILE_BYTES ==> (f in a <==> f in b)) ==>
              RecoverAll(SeenLog(log, a), threshold) == RecoverAll(SeenLog(log, b), threshold)
  {
    hide RecoverAll;
    forall f | f in log && Total(log[f]) == MAX_FILE_BYTES ensures Seen(log[f]) != log[f] {
      assert |Seen(log[f])| < |log[f]|;
    }
    if SeenLog(log, a) == SeenLog(log, b) {
      forall f | f in log && Total(log[f]) == MAX_FILE_BYTES ensures f in a <==> f in b {
        assert SeenLog(log, a)[f] == SeenLog(log, b)[f];
      }
    }
  }

  /** Closing the store, or crashing, and opening it again. */
  ghost function Reopen(env: Env, s: Store): (s': Store)
  {
    var seen := SeenLog(s.log, s.indexed);
    s.(mem := RecoverAll(seen, env.threshold), maxFile := s.active,
       uncharged := map f | f in s.log && Total(s.log[f]) > Total(seen[f]) :: Total(s.log[f]) - Total(seen[f]))
  }

  /** The tombstone p is not seen, and is all that keeps its key deleted: the newest record of the
      key that is seen is the Set q. */
  ghost predicate Unhides(log: Log, seen: Log, p: Pos, q: Pos)
  {
    && Newest(log, p) && !At(seen, p) && Rec(log, p).kind == DELETE
    && Winner(seen, q) && Rec(seen, q).key == Rec(log, p).key
  }

  /** Every live record is seen, and so is every tombstone that hides a Set. */
  ghost predicate Harmless(log: Log, seen: Log)
  {
    && (forall p :: Winner(log, p) ==> At(seen, p))
    && !exists p, q :: Unhides(log, seen, p, q)
  }

  /** No file without an index file is filled to its last byte. */
  ghost predicate AllSeen(s: Store)
  {
    forall f :: f in s.log ==> f in s.indexed || Total(s.log[f]) < MAX_FILE_BYTES
  }

  lemma SplitLast(rs: seq<Entry>)
    requires rs != []
    ensures rs[..|rs| - 1] + [rs[|rs| - 1]] == rs
  {
  }

  lemma SeenTotal(rs: seq<Entry>)
    requires Total(rs) <= MAX_FILE_BYTES
    ensures Seen(rs) == rs || (rs != [] && Seen(rs) + [rs[|rs| - 1]] == rs)
    ensures Total(Seen(rs)) <= Total(rs) && Total(Seen(rs)) < MAX_FILE_BYTES
  {
    if Seen(rs) != rs {
      SplitLast(rs);
    }
  }

  lemma ReopenRebuilt(env: Env, s: Store)
    requires FilesOk(env, s)
    ensures Rebuilt(SeenLog(s.log, s.indexed), Reopen(env, s).mem, env.threshold)
  {
    var seen := SeenLog(s.log, s.indexed);
    forall f | f in seen ensures KindsOk(seen[f]) {
      assert Genuine(env, s.log[f]);
    }
    RecoverAllRebuilt(seen, env.threshold);
  }

  lemma UnseenRecord(log: Log, seen: Log, m: Mem, f: FileId)
    requires f in log && f in seen && Total(log[f]) <= MAX_FILE_BYTES && Sound(seen, m.indices)
    requires seen[f] == log[f] || seen[f] == Seen(log[f])
    ensures LiveBytes(log[f], f, m.indices) == LiveBytes(seen[f], f, m.indices)
    ensures forall k :: k in m.indices && m.indices[k].loc.id == f ==> SoundAt(log, k, m.indices[k])
  {
    SeenTotal(log[f]);
    if seen[f] != log[f] {
      var e := log[f][|log[f]| - 1];
      AppendDead(seen, f, e, m, map[], f);
      assert RecordsOf(Appended(seen, f, e), f) == log[f];
      forall k | k in m.indices && m.indices[k].loc.id == f ensures SoundAt(log, k, m.indices[k]) {
        assert SoundAt(seen, k, m.indices[k]);
        AppendSound(seen, f, e, k, m.indices[k]);
      }
    } else {
      forall k | k in m.indices && m.indices[k].loc.id == f ensures SoundAt(log, k, m.indices[k]) {
        assert SoundAt(seen, k, m.indices[k]);
      }
    }
  }

  /** Whatever the memory was, reopening builds one that satisfies the invariant. */
  lemma ReopenKeepsInv(env: Env, s: Store)
    requires FilesOk(env, s)
    ensures Inv(env, Reopen(env, s))
  {
    hide RecoverAll, Total, LiveBytes, Genuine, Replayed, Seen, Scheduled;
    var seen, s' := SeenLog(s.log, s.indexed), Reopen(env, s);
    ReopenRebuilt(env, s);
    forall k | k in s'.mem.indices ensures SoundAt(s.log, k, s'.mem.indices[k]) {
      assert SoundAt(seen, k, s'.mem.indices[k]);
      UnseenRecord(s.log, seen, s'.mem, s'.mem.indices[k].loc.id);
    }
    forall f ensures Balanced(s.log, s'.mem, s'.uncharged, f) {
      assert Balanced(seen, s'.mem, map[], f);
      if f in s.log {
        UnseenRecord(s.log, seen, s'.mem, f);
        SeenTotal(s.log[f]);
      }
    }
    assert FilesOk(env, s');
  }

  /** `seen` holds some of the records of the log, each where it is in the log. */
  ghost predicate PartOf(seen: Log, log: Log)
  {
    forall p :: At(seen, p) ==> At(log, p) && Rec(seen, p) == Rec(log, p) && DirOf(seen, p) == DirOf(log, p)
  }

  lemma SeenIsPart(log: Log, indexed: set<FileId>)
    ensures PartOf(SeenLog(log, indexed), log)
  {
    var seen := SeenLog(log, indexed);
    forall p | At(seen, p) ensures At(log, p) && Rec(seen, p) == Rec(log, p) && DirOf(seen, p) == DirOf(log, p) {
      assert seen[p.id] <= log[p.id];
      assert seen[p.id][..p.i] == log[p.id][..p.i];
    }
  }

  lemma SeenNewest(log: Log, seen: Log, p: Pos)
    requires PartOf(seen, log) && At(seen, p) && Newest(log, p)
    ensures Newest(seen, p)
  {
    forall q | At(seen, q) && Rec(seen, q).key == Rec(seen, p).key ensures q == p || q.Less(p) {
      assert At(log, q);
    }
  }

  lemma HarmlessKeepsWinners(log: Log, seen: Log)
    requires PartOf(seen, log) && Harmless(log, seen)
    requires forall p :: At(log, p) ==> Rec(log, p).kind in {SET, DELETE}
    ensures forall k :: k in Winners(log) ==> k in Winners(seen) && Winners(seen)[k] == Winners(log)[k]
    ensures forall k :: k in Winners(seen) ==> k in Winners(log)
  {
    var w, w' := Winners(log), Winners(seen);
    forall k | k in w ensures k in w' && w'[k] == w[k] {
      assert Winner(log, w[k]);
      SeenNewest(log, seen, w[k]);
      assert Winner(seen, w[k]);
    }
    forall k | k in w' ensures k in w {
      var q := w'[k];
      assert At(seen, q);
      var p := NewestExists(log, q);
      var unhides, wins := Unhides(log, seen, p, q), Winner(log, p);
      if At(seen, p) {
        SeenNewest(log, seen, p);
        WinnerUnique(seen, p, q);
      }
    }
  }

  lemma SameReplayIsHarmless(log: Log, seen: Log)
    requires PartOf(seen, log) && Replayed(seen) == Replayed(log)
    ensures Harmless(log, seen)
  {
    var w, w' := Winners(log), Winners(seen);
    assert forall k :: k in Replayed(log) <==> k in w;
    forall p | Winner(log, p) ensures At(seen, p) {
      var k := Rec(log, p).key;
      assert k in Replayed(log) && Replayed(log)[k] == DirOf(log, p);
      assert At(seen, w'[k]) && DirOf(log, w'[k]) == DirOf(log, p);
      OffsetInjective(log[p.id], p.i, w'[k].i);
    }
    if p, q :| Unhides(log, seen, p, q) {
      var k := Rec(log, p).key;
      assert k in w';
      assert k in Replayed(seen);
      WinnerUnique(log, p, w[k]);
    }
  }

  /** Seeing only a part of the records replays to the same index exactly when every live record is
      seen, and every tombstone that hides a Set. */
  lemma PartReplays(log: Log, seen: Log)
    requires PartOf(seen, log) && forall p :: At(log, p) ==> Rec(log, p).kind in {SET, DELETE}
    ensures Replayed(seen) == Replayed(log) <==> Harmless(log, seen)
  {
    if Harmless(log, seen) {
      HarmlessKeepsWinners(log, seen);
      forall k | k in Winners(log) ensures DirOf(seen, Winners(seen)[k]) == DirOf(log, Winners(log)[k]) {
        assert At(seen, Winners(seen)[k]);
      }
      SameMap(Replayed(log), Replayed(seen));
    } else if Replayed(seen) == Replayed(log) {
      SameReplayIsHarmless(log, seen);
    }
  }

  /** What a durable store looks like after it was closed, or has crashed, and was opened again: its
      index, so its map, is the same exactly when recovery sees every live record and every tombstone
      that hides a Set; and no byte is uncharged exactly when it sees all records. */
  lemma ReopenKeepsView(env: Env, s: Store)
    requires FilesOk(env, s) && Durable(s)
    ensures Reopen(env, s).mem.indices == s.mem.indices <==> Harmless(s.log, SeenLog(s.log, s.indexed))
    ensures Durable(Reopen(env, s)) <==> Harmless(s.log, SeenLog(s.log, s.indexed))
    ensures Harmless(s.log, SeenLog(s.log, s.indexed)) ==> View(env, Reopen(env, s)) == View(env, s)
    ensures Reopen(env, s).uncharged == map[] <==> AllSeen(s)
  {
    hide FilesOk, SeenLog, RecoverAll, MemOk, Replayed, Harmless, PartOf, AllSeen;
    var seen := SeenLog(s.log, s.indexed);
    SeenIsPart(s.log, s.indexed);
    KindsAt(env, s);
    ReopenRebuilt(env, s);
    PartReplays(s.log, seen);
    UnchargedUnseen(env, s);
  }

  lemma KindsAt(env: Env, s: Store)
    requires FilesOk(env, s)
    ensures forall p :: At(s.log, p) ==> Rec(s.log, p).kind in {SET, DELETE}
  {
    forall p | At(s.log, p) ensures Rec(s.log, p).kind in {SET, DELETE} {
      assert Genuine(env, s.log[p.id]);
    }
  }

  lemma UnchargedUnseen(env: Env, s: Store)
    requires FilesOk(env, s)
    ensures Reopen(env, s).uncharged == map[] <==> AllSeen(s)
  {
    hide RecoverAll, Seen;
    var u := Reopen(env, s).uncharged;
    forall f | f in s.log ensures f in u <==> f !in s.indexed && Total(s.log[f]) == MAX_FILE_BYTES {
      SeenTotal(s.log[f]);
    }
    if AllSeen(s) {
      assert u.Keys == {};
    } else {
      var f :| f in s.log && f !in s.indexed && Total(s.log[f]) >= MAX_FILE_BYTES;
      assert f in u;
    }
  }

  /** In particular when no unindexed file is full, for then recovery sees everything. */
  lemma AllSeenIsHarmless(env: Env, s: Store)
    requires FilesOk(env, s) && AllSeen(s)
    ensures SeenLog(s.log, s.indexed) == s.log && Harmless(s.log, SeenLog(s.log, s.indexed))
  {
    assert SeenLog(s.log, s.indexed) == s.log;
  }

  /** A live record that fills an unindexed file to its last byte is not recovered. */
  lemma ReopenLosesUnseen(env: Env, s: Store, f: FileId)
    requires Inv(env, s) && f in s.log && f !in s.indexed && Blind(s, f)
    ensures Reopen(env, s).mem.indices != s.mem.indices
  {
    var k :| k in s.mem.indices && s.mem.indices[k].loc.id == f
          && s.mem.indices[k].loc.offset + s.mem.indices[k].entrySize == MAX_FILE_BYTES;
    ReopenRebuilt(env, s);
    var seen := SeenLog(s.log, s.indexed);
    SeenTotal(s.log[f]);
    if k in Reopen(env, s).mem.indices && Reopen(env, s).mem.indices[k] == s.mem.indices[k] {
      assert SoundAt(seen, k, s.mem.indices[k]);
      SoundEnds(seen, k, s.mem.indices[k]);
      assert false;
    }
  }

  lemma SoundEnds(log: Log, k: Bytes, d: Dir)
    requires SoundAt(log, k, d)
    ensures d.loc.offset + d.entrySize <= Total(RecordsOf(log, d.loc.id))
  {
    var rs := RecordsOf(log, d.loc.id);
    var i := RecordAtIndex(rs, d.loc.offset);
    OffsetMonotone(rs, i, |rs|);
    assert rs[..|rs|] == rs;
  }

  // ---------------------------------------------------------------- file by file

  lemma RecoverFileStart(m: Mem, threshold: nat, id: FileId, rs: seq<Entry>)
    ensures RecoverFile(m, threshold, id, rs, 0) == m
  {
  }

  lemma RecoverFileNext(m: Mem, threshold: nat, id: FileId, rs: seq<Entry>, n: nat)
    requires n < |rs|
    ensures RecoverFile(m, threshold, id, rs, n + 1)
         == Recover(RecoverFile(m, threshold, id, rs, n), threshold, Location(id, Offset(rs, n)), rs[n].kind, rs[n].key, Size(rs[n]))
  {
  }

  /** The part of a log in the given files. */
  function Restrict(log: Log, ids: seq<FileId>): (part: Log)
  {
    map f | f in log && f in ids :: log[f]
  }

  lemma RestrictNothing(log: Log, threshold: nat)
    ensures RecoverAll(Restrict(log, []), threshold) == NO_MEM
  {
  }

  lemma RestrictAll(log: Log, ids: seq<FileId>)
    requires forall f :: f in ids <==> f in log
    ensures Restrict(log, ids) == log
  {
  }

  /** Replaying one more file, above all replayed so far. */
  lemma RecoverNextFile(log: Log, ids: seq<FileId>, n: nat, threshold: nat)
    requires n < |ids| && ids[n] in log && forall i :: 0 <= i < n ==> ids[i] < ids[n]
    ensures RecoverAll(Restrict(log, ids[..n + 1]), threshold)
         == RecoverFile(RecoverAll(Restrict(log, ids[..n]), threshold), threshold, ids[n], log[ids[n]], |log[ids[n]]|)
  {
    var id, part := ids[n], Restrict(log, ids[..n + 1]);
    assert ids[..n + 1] == ids[..n] + [id];
    assert id in part && IsLast(part, id);
    var last := LastFile(part);
    assert last in part && id <= last <= id;
    assert Removed(part, id) == Restrict(log, ids[..n]);
  }
}

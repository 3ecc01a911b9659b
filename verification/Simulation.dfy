/** The steps of Interleaving do what the code's critical sections do, one after the other or in any other
    order: its positions stand for locations and sizes, and its map for the contents of the store. */
module Simulation {
  import opened Basics
  import opened RecordFormat
  import opened RecordScan
  import opened Log
  import opened Accounting
  import opened Store
  import opened Compaction
  import I = Interleaving
  import O = Overlapping

  /** The same files, and an index entry for each position. */
  ghost predicate Same(s: Store, c: I.Shared)
  {
    && c.log == s.log && c.active == s.active
    && s.mem.indices.Keys == c.index.Keys
    && forall k :: k in c.index ==> At(s.log, c.index[k]) && s.mem.indices[k] == DirOf(s.log, c.index[k])
  }

  /** Then the two maps are the same: what Interleaving keeps are the values as they are stored. */
  lemma SameContents(env: Env, s: Store, c: I.Shared)
    requires Same(s, c) && I.MemInv(c)
    ensures View(env, s) == map k | k in c.model :: env.Plain(c.model[k])
  {
    hide I.MemInv;
    forall k ensures k in c.index <==> k in c.model { I.MemAt(c, k); }
    forall k | k in c.index ensures StoredAt(s.log, s.mem.indices[k].loc) == c.model[k] { StoredIsModel(s, c, k); }
    hide Same, StoredAt;
    SameMap(View(env, s), map k | k in c.model :: env.Plain(c.model[k]));
  }

  lemma StoredIsModel(s: Store, c: I.Shared, k: Bytes)
    requires Same(s, c) && I.MemInv(c) && k in c.index
    ensures k in c.model && StoredAt(s.log, s.mem.indices[k].loc) == c.model[k]
  {
    hide I.MemInv;
    I.MemAt(c, k);
    RecordAtOffset(s.log[c.index[k].id], c.index[k].i);
  }

  /** What an append leaves of the index, and the entry of the appended record. */
  lemma SameAppended(s: Store, c: I.Shared, e: Entry)
    requires Same(s, c) && IsLast(s.log, s.active)
    ensures var s', top := I.Append(c, e), I.Place(c, e);
            && s'.log == Append(s, e).0.log && s'.active == Append(s, e).0.active
            && At(s'.log, top) && DirOf(s'.log, top) == Dir(Size(e), Append(s, e).1) && top.id >= s.active
            && (forall g :: g in s.log && g < s.active ==> g in s'.log && s'.log[g] == s.log[g])
            && forall k :: k in c.index ==> At(s'.log, c.index[k]) && DirOf(s'.log, c.index[k]) == s.mem.indices[k] && c.index[k].Less(top)
  {
    AppendedPositions(s.log, I.Place(c, e).id, e);
  }

  lemma AppendIs(c: I.Shared, e: Entry)
    ensures var c' := I.Append(c, e);
            c' == c.(log := c'.log, active := c'.active)
  {
  }

  lemma WriteTaken(c: I.Shared, e: Entry)
    requires Storable(e) && e.key !in c.writers
    ensures var append, publish := I.AppendWrite(e), I.PublishWrite(e.key);
            && I.Possible(c, append) && I.Possible(I.Exec(c, append), publish)
            && var c' := I.Exec(I.Exec(c, append), publish);
               && c'.log == I.Append(c, e).log && c'.active == I.Append(c, e).active
               && c'.index == (if e.kind == SET then c.index[e.key := I.Place(c, e)] else c.index - {e.key})
               && c'.writers == c.writers && c'.compactions == c.compactions
  {
    AppendIs(c, e);
    hide I.Append, I.Place;
  }

  /** A write alone is a Put. */
  lemma WriteIsPut(env: Env, s: Store, c: I.Shared, key: Bytes, value: Bytes)
    requires Same(s, c) && IsLast(s.log, s.active) && key !in c.writers
    requires Storable(env.Record(key, value))
    ensures var append, publish := I.AppendWrite(env.Record(key, value)), I.PublishWrite(key);
            && I.Possible(c, append) && I.Possible(I.Exec(c, append), publish)
            && var c' := I.Exec(I.Exec(c, append), publish);
               && Same(Put(env, s, key, value).1, c') && c'.writers == c.writers && c'.compactions == c.compactions
  {
    hide Put, I.Exec, I.Append, I.Place, Appended, Target, Total, Size, EndOf, PublishUncharged, Publish;
    var e := env.Record(key, value);
    PutEffect(env, s, key, value);
    SameAppended(s, c, e);
    WriteTaken(c, e);
  }

  /** The record that a compaction is at is live for one exactly if it is for the other. */
  lemma SameLive(s: Store, c: I.Shared, f: FileId, i: nat)
    requires Same(s, c) && f in s.log && i < |s.log[f]|
    ensures var rs := s.log[f];
            IsLive(s.mem.indices, rs[i].key, Location(f, Offset(rs, i))) <==> rs[i].key in c.index && c.index[rs[i].key] == Pos(f, i)
  {
    var rs := s.log[f];
    if rs[i].key in c.index && c.index[rs[i].key].id == f && Offset(rs, c.index[rs[i].key].i) == Offset(rs, i) {
      OffsetInjective(rs, c.index[rs[i].key].i, i);
    }
  }

  /** The steps that a compaction takes for a record: only the check, if it is not live. */
  function RoundOf(c: I.Shared, f: FileId): (steps: seq<I.Step>)
    requires I.Possible(c, I.CheckRecord(f))
  {
    if I.Exec(c, I.CheckRecord(f)).compactions[f].phase == I.Checked
    then [I.CheckRecord(f), I.CopyRecord(f), I.PublishCopy(f)] else [I.CheckRecord(f)]
  }

  lemma CopyPublished(c: I.Shared, f: FileId, e: Entry, at: Pos)
    requires I.AtRecord(c, f) && I.Current(c, f) == e && c.compactions[f].phase == I.Copied(at)
    requires e.key in c.index && c.index[e.key].Less(at)
    ensures I.Possible(c, I.PublishCopy(f))
    ensures I.Exec(c, I.PublishCopy(f))
         == c.(index := c.index[e.key := at], compactions := c.compactions[f := I.Cursor(c.compactions[f].next + 1, I.Scanning)])
  {
    hide Seen;
  }

  lemma CopyTaken(s: Store, c: I.Shared, f: FileId, i: nat)
    requires Same(s, c) && IsLast(s.log, s.active) && f in s.log && i < |s.log[f]|
    requires SizeOf(s.log[f][i]) == Size(s.log[f][i]) && Copies(s, f, i)
    requires f in c.compactions && c.compactions[f] == I.Cursor(i, I.Checked)
    ensures I.Possible(c, I.CopyRecord(f)) && I.Possible(I.Exec(c, I.CopyRecord(f)), I.PublishCopy(f))
    ensures var c' := I.Exec(I.Exec(c, I.CopyRecord(f)), I.PublishCopy(f));
            && Same(CopyStep(s, f, i), c') && c'.compactions == c.compactions[f := I.Cursor(i + 1, I.Scanning)]
            && c'.writers == c.writers && c'.model == c.model && I.Longer(c.log, c'.log)
  {
    hide CopyStep, PublishCopy, I.Append, I.Place, I.Longer, Appended, Target, Total, Size, Offset, Seen;
    var e := s.log[f][i];
    CopyStepEffect(s, f, i);
    SameLive(s, c, f, i);
    SameAppended(s, c, e);
    I.CopiedPlace(c, f);
    AppendIs(c, e);
    CopyPublished(I.Exec(c, I.CopyRecord(f)), f, e, I.Place(c, e));
    AppendIsLonger(c, e);
  }

  lemma AppendIsLonger(c: I.Shared, e: Entry)
    ensures I.Longer(c.log, I.Append(c, e).log)
  {
    I.AppendedLonger(c.log, I.Place(c, e).id, e);
  }

  lemma NotLive(s: Store, f: FileId, i: nat)
    requires !Copies(s, f, i)
    ensures CopyStep(s, f, i) == s
  {
  }

  lemma Checks(s: Store, c: I.Shared, f: FileId, i: nat)
    requires Same(s, c) && f in s.log && i < |Seen(s.log[f])| && f in c.compactions && c.compactions[f] == I.Cursor(i, I.Scanning)
    ensures I.Possible(c, I.CheckRecord(f))
    ensures var c', next := I.Exec(c, I.CheckRecord(f)), if Copies(s, f, i) then I.Cursor(i, I.Checked) else I.Cursor(i + 1, I.Scanning);
            c' == c.(compactions := c.compactions[f := next]) && Same(s, c')
  {
    SameLive(s, c, f, i);
  }

  /** A round of a compaction alone is an iteration of its loop. */
  lemma RoundIsCopyStep(s: Store, c: I.Shared, f: FileId, i: nat)
    requires Same(s, c) && IsLast(s.log, s.active) && f in s.log && i < |Seen(s.log[f])|
    requires SizeOf(s.log[f][i]) == Size(s.log[f][i])
    requires f in c.compactions && c.compactions[f] == I.Cursor(i, I.Scanning)
    ensures I.Possible(c, I.CheckRecord(f)) && I.AllPossible(c, RoundOf(c, f))
    ensures var c' := I.ExecAll(c, RoundOf(c, f));
            && Same(CopyStep(s, f, i), c') && c'.compactions == c.compactions[f := I.Cursor(i + 1, I.Scanning)]
            && c'.writers == c.writers && c'.model == c.model && I.Longer(c.log, c'.log)
  {
    hide Total, Size, Offset, I.Append, CopyStep, PublishCopy, Same, Seen;
    Checks(s, c, f, i);
    if !Copies(s, f, i) { NotLive(s, f, i); }
    var c1 := I.Exec(c, I.CheckRecord(f));
    if Copies(s, f, i) {
      CopyTaken(s, c1, f, i);
      var c2 := I.Exec(c1, I.CopyRecord(f));
      I.RunSteps(c2, I.PublishCopy(f), []);
      I.RunSteps(c1, I.CopyRecord(f), [I.PublishCopy(f)]);
      I.RunSteps(c, I.CheckRecord(f), [I.CopyRecord(f), I.PublishCopy(f)]);
      assert RoundOf(c, f) == [I.CheckRecord(f)] + ([I.CopyRecord(f)] + ([I.PublishCopy(f)] + []));
    } else {
      I.RunSteps(c, I.CheckRecord(f), []);
    }
  }

  /** Its end drops the file. */
  lemma RemoveIsDrop(s: Store, c: I.Shared, f: FileId)
    requires Same(s, c) && I.Possible(c, I.RemoveFile(f)) && !I.Needed(c, f)
    ensures Same(DropFile(s, f), I.Exec(c, I.RemoveFile(f)))
  {
    forall k | k in c.index ensures At(Removed(s.log, f), c.index[k]) && DirOf(Removed(s.log, f), c.index[k]) == s.mem.indices[k] {
      RemovedNewest(s.log, f, c.index[k]);
    }
  }

  // ---------------------------------------------------------------- a whole compaction

  /** The compaction of f is the only operation under way, and where its scan has got to. */
  ghost predicate Alone(c: I.Shared, f: FileId, cursor: I.Cursor)
  {
    c.writers == map[] && c.compactions == map[f := cursor]
  }

  lemma {:induction false} CleanConcat(c: I.Shared, a: seq<I.Step>, b: seq<I.Step>)
    requires I.AllPossible(c, a) && I.AllPossible(I.ExecAll(c, a), b)
    requires I.AllClean(c, a) && I.AllClean(I.ExecAll(c, a), b)
    ensures I.AllPossible(c, a + b) && I.AllClean(c, a + b) && I.ExecAll(c, a + b) == I.ExecAll(I.ExecAll(c, a), b)
    decreases |a|
  {
    hide I.Exec, I.Possible, I.Clean;
    I.RunConcat(c, a, b);
    if a == [] {
      assert a + b == b;
    } else {
      CleanConcat(I.Exec(c, a[0]), a[1..], b);
      assert (a + b)[0] == a[0] && (a + b)[1..] == a[1..] + b;
    }
  }

  lemma OneClean(c: I.Shared, step: I.Step, rest: seq<I.Step>)
    requires I.Possible(c, step) && I.Clean(c, step)
    requires I.AllPossible(I.Exec(c, step), rest) && I.AllClean(I.Exec(c, step), rest)
    ensures I.AllPossible(c, [step] + rest) && I.AllClean(c, [step] + rest)
    ensures I.ExecAll(c, [step] + rest) == I.ExecAll(I.Exec(c, step), rest)
  {
    hide I.Exec, I.Possible, I.Clean;
    I.RunSteps(c, step, rest);
    assert ([step] + rest)[1..] == rest;
  }

  /** The first step of a round meets no other operation; the others start none. */
  lemma RoundIsClean(c: I.Shared, f: FileId, i: nat)
    requires Alone(c, f, I.Cursor(i, I.Scanning)) && I.Possible(c, I.CheckRecord(f)) && I.AllPossible(c, RoundOf(c, f))
    ensures I.AllClean(c, RoundOf(c, f))
  {
    hide I.Exec;
    var c1 := I.Exec(c, I.CheckRecord(f));
    assert I.Clean(c, I.CheckRecord(f));
    if |RoundOf(c, f)| == 3 {
      var rest := RoundOf(c, f)[1..];
      assert rest == [I.CopyRecord(f), I.PublishCopy(f)] && rest[1..] == [I.PublishCopy(f)] && rest[1..][1..] == [];
      assert I.AllPossible(c1, rest);
      var c2 := I.Exec(c1, I.CopyRecord(f));
      assert I.AllPossible(c2, [I.PublishCopy(f)]);
      assert I.AllClean(c2, [I.PublishCopy(f)]);
      assert I.AllClean(c1, rest);
    } else {
      assert RoundOf(c, f)[1..] == [];
    }
  }

  lemma RecordIs(env: Env, s: Store, f: FileId, i: nat)
    requires Compacts(env, s, f) && i < |Seen(s.log[f])|
    ensures IsLast(s.log, s.active) && SizeOf(s.log[f][i]) == Size(s.log[f][i])
  {
    hide Seen, MemOk, Total;
    RecordGenuine(env, s, f, i);
  }

  /** One more round, if the scan sees a record there. */
  lemma OneRound(env: Env, s: Store, c: I.Shared, f: FileId, n: nat) returns (steps: seq<I.Step>)
    requires Compacts(env, s, f) && Same(s, c) && Alone(c, f, I.Cursor(Scanned(s, f, n), I.Scanning))
    ensures I.AllPossible(c, steps) && I.AllClean(c, steps)
    ensures var c', s' := I.ExecAll(c, steps), CopyStep(s, f, n);
            && Same(s', c') && c'.model == c.model && Alone(c', f, I.Cursor(Scanned(s', f, n + 1), I.Scanning))
  {
    hide CopyStep, Seen, Inv, Total, I.Exec, I.Longer, I.AllPossible, I.AllClean, I.ExecAll, I.Possible, RoundOf;
    if n < |Seen(s.log[f])| {
      RecordIs(env, s, f, n);
      RoundIsCopyStep(s, c, f, n);
      RoundIsClean(c, f, n);
      steps := RoundOf(c, f);
      StaysVisible(c, I.ExecAll(c, steps), f);
    } else {
      steps := [];
      NoSteps(c);
      NotLive(s, f, n);
    }
  }

  lemma StaysVisible(c: I.Shared, c': I.Shared, f: FileId)
    requires I.Longer(c.log, c'.log) && f in c.log
    ensures f in c'.log && |Seen(c.log[f])| <= |Seen(c'.log[f])|
  {
  }

  lemma NoSteps(c: I.Shared)
    ensures I.AllPossible(c, []) && I.AllClean(c, []) && I.ExecAll(c, []) == c
  {
  }

  lemma CompactsStill(env: Env, s: Store, f: FileId, n: nat)
    requires Compacts(env, s, f)
    ensures Compacts(env, CopyUpTo(s, f, n), f)
  {
    hide Compacts, CopyUpTo, View, MovedBelow, Grows;
    CopyUpToKeeps(env, s, f, n);
  }

  lemma {:induction false} Rounds(env: Env, s: Store, c: I.Shared, f: FileId, n: nat) returns (steps: seq<I.Step>)
    requires Compacts(env, s, f) && Same(s, c) && Alone(c, f, I.Cursor(0, I.Scanning))
    ensures I.AllPossible(c, steps) && I.AllClean(c, steps)
    ensures var c', s' := I.ExecAll(c, steps), CopyUpTo(s, f, n);
            && Same(s', c') && c'.model == c.model && Alone(c', f, I.Cursor(Scanned(s', f, n), I.Scanning))
  {
    hide Compacts, CopyStep, Scanned, Same, Alone, I.AllPossible, I.AllClean, I.ExecAll;
    if n == 0 {
      steps := [];
      NoSteps(c);
      NothingScanned(s, f);
    } else {
      var before := Rounds(env, s, c, f, n - 1);
      CompactsStill(env, s, f, n - 1);
      var c1 := I.ExecAll(c, before);
      var round := OneRound(env, CopyUpTo(s, f, n - 1), c1, f, n - 1);
      CleanConcat(c, before, round);
      steps := before + round;
    }
  }

  lemma NothingScanned(s: Store, f: FileId)
    ensures Scanned(s, f, 0) == 0
  {
    hide Seen;
  }

  lemma Starts(env: Env, s: Store, c: I.Shared, f: FileId)
    requires Inv(env, s) && f in s.log && f !in s.mem.tasks && Same(s, c) && c.writers == map[] && c.compactions == map[]
    ensures I.Possible(c, I.StartCompact(f)) && I.Clean(c, I.StartCompact(f))
    ensures var c' := I.Exec(c, I.StartCompact(f));
            && Compacts(env, StartCompact(s, f), f) && Same(StartCompact(s, f), c') && c'.model == c.model
            && Alone(c', f, I.Cursor(0, I.Scanning))
  {
    hide Inv, View;
    StartKeeps(env, s, f);
  }

  lemma EndIsComplete(c: I.Shared, f: FileId)
    requires f in c.log && f < c.active && c.writers == map[] && forall k :: k in c.index ==> c.index[k].id != f
    requires forall g :: g in c.compactions ==> !c.compactions[g].phase.Copied?
    ensures I.Complete(c, f)
  {
    hide Seen;
  }

  /** The end of a compaction that leaves nothing behind in its file. */
  lemma Ends(s: Store, c: I.Shared, f: FileId)
    requires Same(s, c) && f in s.log && f < s.active && forall k :: k in s.mem.indices ==> s.mem.indices[k].loc.id != f
    requires Alone(c, f, I.Cursor(|Seen(s.log[f])|, I.Scanning))
    ensures var steps := [I.EndScan(f)] + ([I.RemoveFile(f)] + []);
            && I.AllPossible(c, steps) && I.AllClean(c, steps)
            && var c' := I.ExecAll(c, steps);
               Same(DropFile(s, f), c') && c'.writers == map[] && c'.compactions == map[] && c'.model == c.model
  {
    hide Seen, Offset;
    var c1 := I.Exec(c, I.EndScan(f));
    assert !I.Needed(c1, f);
    EndIsComplete(c, f);
    RemoveIsDrop(s, c1, f);
    var c2 := I.Exec(c1, I.RemoveFile(f));
    assert c2.compactions == map[];
    NoSteps(c2);
    OneClean(c1, I.RemoveFile(f), []);
    OneClean(c, I.EndScan(f), [I.RemoveFile(f)] + []);
  }

  lemma CopiedIs(env: Env, s: Store, f: FileId)
    requires Inv(env, s) && f in s.log && f !in s.mem.tasks && Safe(s, f)
    ensures var t := Copied(s, f);
            && t == CopyUpTo(StartCompact(s, f), f, RECORDS_PER_FILE) && Compact(s, f) == DropFile(t, f)
            && f in t.log && f < t.active && Scanned(t, f, RECORDS_PER_FILE) == |Seen(t.log[f])|
            && forall k :: k in t.mem.indices ==> t.mem.indices[k].loc.id != f
  {
    hide CopyUpTo, MemOk, View, Blind, Grows, MovedBelow, Safe, Scanned, Seen, Genuine;
    CopiedKeeps(env, s, f);
    SafeIs(env, s, f);
    NothingLeft(env, s, f);
    ScanEnds(env, Copied(s, f), f, RECORDS_PER_FILE);
  }

  /** A whole compaction alone, of a sealed file or of the active one, is a clean run of steps. */
  lemma CompactIsRun(env: Env, s: Store, c: I.Shared, f: FileId) returns (steps: seq<I.Step>)
    requires Inv(env, s) && f in s.log && f !in s.mem.tasks && Safe(s, f)
    requires Same(s, c) && c.writers == map[] && c.compactions == map[]
    ensures I.AllPossible(c, steps) && I.AllClean(c, steps)
    ensures var c' := I.ExecAll(c, steps);
            Same(Compact(s, f), c') && c'.writers == map[] && c'.compactions == map[] && c'.model == c.model
  {
    hide Inv, Safe, Same, Alone, Compacts, Copied, CopyUpTo, DropFile, StartCompact, Compact, I.AllPossible, I.AllClean, I.ExecAll, I.Exec,
         I.Possible, I.Clean, Scanned;
    Starts(env, s, c, f);
    var c1 := I.Exec(c, I.StartCompact(f));
    var rounds := Rounds(env, StartCompact(s, f), c1, f, RECORDS_PER_FILE);
    var c2, end := I.ExecAll(c1, rounds), [I.EndScan(f)] + ([I.RemoveFile(f)] + []);
    CopiedIs(env, s, f);
    Ends(Copied(s, f), c2, f);
    CleanConcat(c1, rounds, end);
    OneClean(c, I.StartCompact(f), rounds + end);
    steps := [I.StartCompact(f)] + (rounds + end);
  }

  // ---------------------------------------------------------------- any order of steps

  /** The location of a position. */
  function PlaceOf(log: Log, p: Pos): (loc: Location)
  {
    if At(log, p) then LocOf(log, p) else Location(p.id, 0)
  }

  /** What the code does in a step, whatever other operations are at: HandlePut appends and publishes,
      Compact marks its file, checks, appends, publishes and drops its file. */
  function CodeStep(env: Env, s: Store, c: I.Shared, step: I.Step): (s': Store)
    requires I.Possible(c, step)
  {
    match step
    case AppendWrite(e) => Append(s, e).0
    case PublishWrite(key) =>
      var e, at := c.writers[key].e, c.writers[key].at;
      s.(mem := Publish(s.mem, env.threshold, PlaceOf(s.log, at), key, e.kind == DELETE, Size(e)).1)
    case StartCompact(f) => StartCompact(s, f)
    case CheckRecord(f) => s
    case CopyRecord(f) => Append(s, I.Current(c, f)).0
    case PublishCopy(f) =>
      var e, at := I.Current(c, f), c.compactions[f].phase.at;
      s.(mem := PublishCopy(s.mem, PlaceOf(s.log, at), e.key, Size(e)))
    case EndScan(f) => s
    case RemoveFile(f) => DropFile(s, f)
  }

  /** Whatever is in flight is where it was appended; a tombstone may be gone with its file. */
  ghost predicate Located(c: I.Shared)
  {
    && c.active in c.log && IsLast(c.log, c.active) && I.StorableLog(c.log)
    && (forall k :: k in c.writers ==> WriterAt(c, k))
    && (forall f :: f in c.compactions && c.compactions[f].phase.Copied? ==> CopyAt(c, f))
  }

  ghost predicate WriterAt(c: I.Shared, k: Bytes)
    requires k in c.writers
  {
    var w := c.writers[k];
    w.e.key == k && w.e.kind in {SET, DELETE} && (w.e.kind == SET ==> At(c.log, w.at) && Rec(c.log, w.at) == w.e)
  }

  ghost predicate CopyAt(c: I.Shared, f: FileId)
    requires f in c.compactions && c.compactions[f].phase.Copied?
  {
    I.AtRecord(c, f) && At(c.log, c.compactions[f].phase.at) && Rec(c.log, c.compactions[f].phase.at) == I.Current(c, f)
  }

  /** Locations are ordered as positions are. */
  lemma SameOrder(log: Log, p: Pos, q: Pos)
    requires At(log, p) && At(log, q)
    ensures LocOf(log, p).Less(LocOf(log, q)) <==> p.Less(q)
  {
    if p.id == q.id {
      if p.i < q.i { OffsetMonotone(log[p.id], p.i, q.i); }
      if q.i < p.i { OffsetMonotone(log[p.id], q.i, p.i); }
    }
  }

  /** The publish of a copy does the same to the index of the code, wherever the key points by then. */
  lemma PublishCopyIsCode(env: Env, s: Store, c: I.Shared, f: FileId)
    requires Same(s, c) && I.Possible(c, I.PublishCopy(f)) && CopyAt(c, f)
    ensures Same(CodeStep(env, s, c, I.PublishCopy(f)), I.Exec(c, I.PublishCopy(f)))
  {
    hide Seen, Size, LocOf;
    var e, at := I.Current(c, f), c.compactions[f].phase.at;
    PublishCopyCases(s.mem, LocOf(s.log, at), e.key, Size(e));
    if e.key in c.index { SameOrder(s.log, c.index[e.key], at); }
    DirIs(s.log, at);
    if e.key in c.index { DirIs(s.log, c.index[e.key]); }
  }

  lemma DirIs(log: Log, p: Pos)
    requires At(log, p)
    ensures DirOf(log, p) == Dir(Size(Rec(log, p)), LocOf(log, p))
  {
  }

  lemma PublishWriteIsCode(env: Env, s: Store, c: I.Shared, key: Bytes)
    requires Same(s, c) && I.Possible(c, I.PublishWrite(key)) && WriterAt(c, key)
    ensures Same(CodeStep(env, s, c, I.PublishWrite(key)), I.Exec(c, I.PublishWrite(key)))
  {
    hide Publish, Size, LocOf;
    var e, at := c.writers[key].e, c.writers[key].at;
    PublishEffect(s.mem, env.threshold, PlaceOf(s.log, at), key, e.kind == DELETE, Size(e));
    if e.kind == SET { DirIs(s.log, at); }
  }

  lemma AppendIsCode(s: Store, c: I.Shared, e: Entry)
    requires Same(s, c) && IsLast(s.log, s.active)
    ensures Same(Append(s, e).0, I.Append(c, e))
  {
    hide I.Place;
    SameAppended(s, c, e);
    AppendIs(c, e);
  }

  /** The check of a record finds it live exactly if the code does. */
  lemma CheckIsCode(s: Store, c: I.Shared, f: FileId)
    requires Same(s, c) && I.Possible(c, I.CheckRecord(f))
    ensures var e, i := I.Current(c, f), c.compactions[f].next;
            I.Exec(c, I.CheckRecord(f)).compactions[f].phase == I.Checked
            <==> e.kind == SET && IsLive(s.mem.indices, e.key, Location(f, Offset(s.log[f], i)))
  {
    SameLive(s, c, f, c.compactions[f].next);
  }

  /** In any state, overlaps included, a step does to files and index what the code does, unless it
      removes a file that is needed. */
  lemma StepIsCode(env: Env, s: Store, c: I.Shared, step: I.Step)
    requires Same(s, c) && Located(c) && I.Possible(c, step) && (step.RemoveFile? ==> !I.Needed(c, step.file))
    ensures Same(CodeStep(env, s, c, step), I.Exec(c, step))
  {
    hide I.Append, Append, Publish, PublishCopy, I.StorableLog, Seen, WriterAt, CopyAt, LocOf;
    match step
    case AppendWrite(e) => AppendIsCode(s, c, e); WrittenIs(c, e);
    case PublishWrite(key) => PublishWriteIsCode(env, s, c, key);
    case StartCompact(f) =>
    case CheckRecord(f) =>
    case CopyRecord(f) => AppendIsCode(s, c, I.Current(c, f)); AppendIs(c, I.Current(c, f));
    case PublishCopy(f) => PublishCopyIsCode(env, s, c, f);
    case EndScan(f) =>
    case RemoveFile(f) => RemoveIsDrop(s, c, f);
  }

  lemma WrittenIs(c: I.Shared, e: Entry)
    requires I.Possible(c, I.AppendWrite(e))
    ensures var c' := I.Exec(c, I.AppendWrite(e));
            c'.log == I.Append(c, e).log && c'.active == I.Append(c, e).active && c'.index == I.Append(c, e).index
  {
  }

  lemma StorableRecord(c: I.Shared, f: FileId)
    requires Located(c) && I.AtRecord(c, f)
    ensures Storable(I.Current(c, f))
  {
    hide Seen, WriterAt, CopyAt;
    I.StorableAt(c.log, f, c.compactions[f].next);
  }

  lemma AppendStaysLocated(c: I.Shared, e: Entry)
    requires Located(c) && Storable(e)
    ensures var c', top := I.Append(c, e), I.Place(c, e);
            && Located(c') && At(c'.log, top) && Rec(c'.log, top) == e
            && forall f :: I.AtRecord(c, f) ==> I.AtRecord(c', f) && I.Current(c', f) == I.Current(c, f)
  {
    hide I.Append, I.Place, I.StorableLog, IsLast, Newest, Seen, Storable;
    I.AppendKeeps(c, e);
    I.AppendOnly(c, e);
  }

  lemma StepStaysLocated(c: I.Shared, step: I.Step)
    requires Located(c) && I.Possible(c, step) && !step.RemoveFile?
    ensures Located(I.Exec(c, step))
  {
    hide I.Append, I.Place, I.StorableLog, IsLast, Seen, Storable, At, Rec;
    match step
    case AppendWrite(e) => WriteStaysLocated(c, e);
    case CopyRecord(f) => CopyStaysLocated(c, f);
    case _ =>
  }

  lemma WriteStaysLocated(c: I.Shared, e: Entry)
    requires Located(c) && I.Possible(c, I.AppendWrite(e))
    ensures Located(I.Exec(c, I.AppendWrite(e)))
  {
    StorableKind(e);
    hide I.Append, I.Place, I.StorableLog, IsLast, Seen, Storable;
    AppendStaysLocated(c, e);
    I.AppendOnly(c, e);
    var a, c' := I.Append(c, e), I.Exec(c, I.AppendWrite(e));
    forall k | k in c'.writers ensures WriterAt(c', k) { if k != e.key { assert WriterAt(a, k); } }
    forall f | f in c'.compactions && c'.compactions[f].phase.Copied? ensures CopyAt(c', f) { assert CopyAt(a, f); }
  }

  lemma StorableKind(e: Entry)
    requires Storable(e)
    ensures e.kind in {SET, DELETE}
  {
  }

  lemma CopyStaysLocated(c: I.Shared, f: FileId)
    requires Located(c) && I.Possible(c, I.CopyRecord(f))
    ensures Located(I.Exec(c, I.CopyRecord(f)))
  {
    hide I.Append, I.Place, I.StorableLog, IsLast, Seen, Storable;
    var e := I.Current(c, f);
    StorableRecord(c, f);
    AppendStaysLocated(c, e);
    I.AppendOnly(c, e);
    var a, c' := I.Append(c, e), I.Exec(c, I.CopyRecord(f));
    forall k | k in c'.writers ensures WriterAt(c', k) { assert WriterAt(a, k); }
    forall g | g in c'.compactions && c'.compactions[g].phase.Copied? ensures CopyAt(c', g) { if g != f { assert CopyAt(a, g); } }
  }

  function CodeRun(env: Env, s: Store, c: I.Shared, steps: seq<I.Step>): (s': Store)
    requires I.AllPossible(c, steps)
    decreases |steps|
  {
    if steps == [] then s else CodeRun(env, CodeStep(env, s, c, steps[0]), I.Exec(c, steps[0]), steps[1..])
  }

  lemma MemIsLocated(c: I.Shared)
    requires I.MemInv(c)
    ensures Located(c)
  {
    hide I.StorableLog, Seen, Newest, I.Indexed;
    forall k | k in c.writers ensures WriterAt(c, k) { assert I.InFlight(c, k); }
    forall f | f in c.compactions && c.compactions[f].phase.Copied? ensures CopyAt(c, f) { assert I.Compacting(c, f); }
  }

  /** So does every clean run, the removal of files included. */
  lemma {:induction false} CleanRunIsCode(env: Env, s: Store, c: I.Shared, steps: seq<I.Step>)
    requires Same(s, c) && I.MemInv(c) && I.EndsClean(c) && I.AllPossible(c, steps) && I.AllClean(c, steps)
    ensures Same(CodeRun(env, s, c, steps), I.ExecAll(c, steps))
    decreases |steps|
  {
    hide Same, Located, I.MemInv, I.EndsClean, I.Exec, I.Possible, I.Clean, I.Needed, CodeStep;
    if steps != [] {
      MemIsLocated(c);
      I.StepEndsClean(c, steps[0]);
      I.StepKeepsMem(c, steps[0]);
      OrderlyRemoves(c, steps[0]);
      StepIsCode(env, s, c, steps[0]);
      CleanRunIsCode(env, CodeStep(env, s, c, steps[0]), I.Exec(c, steps[0]), steps[1..]);
    }
  }

  lemma OrderlyRemoves(c: I.Shared, step: I.Step)
    requires I.Possible(c, step) && I.Orderly(c, step)
    ensures step.RemoveFile? ==> !I.Needed(c, step.file)
  {
  }

  /** However the critical sections of Puts, Deletes and compactions interleave in a clean run: what a
      reader sees in the end is what the published writes made of the map. */
  lemma CleanRunOfCode(env: Env, s: Store, c: I.Shared, steps: seq<I.Step>)
    requires Same(s, c) && I.MemInv(c) && I.EndsClean(c) && I.AllPossible(c, steps) && I.AllClean(c, steps)
    ensures var model := I.ExecAll(c, steps).model;
            View(env, CodeRun(env, s, c, steps)) == map k | k in model :: env.Plain(model[k])
  {
    hide Same, I.MemInv, I.EndsClean, I.AllPossible, I.AllClean, I.ExecAll, CodeRun, View;
    CleanRunIsCode(env, s, c, steps);
    I.RunKeepsMem(c, steps);
    SameContents(env, CodeRun(env, s, c, steps), I.ExecAll(c, steps));
  }

  /** So does every run without a removal, in any order of the steps. */
  lemma {:induction false} RunIsCode(env: Env, s: Store, c: I.Shared, steps: seq<I.Step>)
    requires Same(s, c) && Located(c) && I.AllPossible(c, steps) && forall step :: step in steps ==> !step.RemoveFile?
    ensures Same(CodeRun(env, s, c, steps), I.ExecAll(c, steps)) && Located(I.ExecAll(c, steps))
    decreases |steps|
  {
    hide Same, Located, I.Exec, I.Possible, CodeStep;
    if steps != [] {
      StepIsCode(env, s, c, steps[0]);
      StepStaysLocated(c, steps[0]);
      RunIsCode(env, CodeStep(env, s, c, steps[0]), I.Exec(c, steps[0]), steps[1..]);
    }
  }

  /** The stored value that an index has for a key. */
  function StoredFor(log: Log, indices: map<Bytes, Dir>, key: Bytes): (v: Option<Bytes>)
  {
    if key in indices then Some(StoredAt(log, indices[key].loc)) else None
  }

  lemma StoredIsRec(log: Log, p: Pos)
    requires At(log, p)
    ensures StoredAt(log, DirOf(log, p).loc) == Rec(log, p).value
  {
    RecordAtOffset(log[p.id], p.i);
  }

  lemma ReadsAreSame(s: Store, c: I.Shared, key: Bytes)
    requires Same(s, c)
    ensures StoredFor(s.log, s.mem.indices, key) == I.Read(c, key)
    ensures StoredFor(s.log, Replayed(s.log), key) == I.Restored(c, key)
  {
    hide StoredAt, DirOf;
    if key in c.index { StoredIsRec(s.log, c.index[key]); }
    var w := Winners(s.log);
    if key in w { StoredIsRec(s.log, w[key]); }
  }

  lemma NoRemoval(f: FileId, e: Entry, a: nat, b: nat)
    requires a <= b <= 3
    ensures forall step :: step in O.Schedule(f, e, a, b) ==> !step.RemoveFile?
  {
    var copy := O.CopySteps(f);
    assert forall step :: step in copy ==> !step.RemoveFile?;
    forall step | step in O.Schedule(f, e, a, b) ensures !step.RemoveFile? {
      assert step in copy || step == I.AppendWrite(e) || step == I.PublishWrite(e.key);
    }
  }

  /** What a race of one copy and one write of a key leaves in the code's index, and in what its files
      replay to. */
  lemma RaceOfCode(env: Env, s: Store, c: I.Shared, f: FileId, e: Entry, a: nat, b: nat)
    requires Same(s, c) && I.MemInv(c) && I.DiskInv(c) && I.AtRecord(c, f) && c.compactions[f].phase == I.Scanning
    requires var record := I.Current(c, f);
             record.kind == SET && e.key == record.key && record.key !in c.writers && Storable(e)
             && record.key in c.index && c.index[record.key] == Pos(f, c.compactions[f].next)
    requires a <= b <= 3 && b >= 1
    ensures I.AllPossible(c, O.Schedule(f, e, a, b))
    ensures var t := CodeRun(env, s, c, O.Schedule(f, e, a, b));
            var stale, written := Some(I.Current(c, f).value), if e.kind == SET then Some(e.value) else None;
            && StoredFor(t.log, t.mem.indices, e.key) == (if e.kind == SET && a < 2 && b < 3 then stale else written)
            && StoredFor(t.log, Replayed(t.log), e.key) == (if a < 2 then stale else written)
  {
    hide Same, Located, I.MemInv, I.DiskInv, I.AllPossible, I.ExecAll, CodeRun, StoredFor, I.Read, I.Restored, O.Schedule, Storable;
    MemIsLocated(c);
    O.RaceOutcome(c, f, e, a, b);
    NoRemoval(f, e, a, b);
    RunIsCode(env, s, c, O.Schedule(f, e, a, b));
    ReadsAreSame(CodeRun(env, s, c, O.Schedule(f, e, a, b)), I.ExecAll(c, O.Schedule(f, e, a, b)), e.key);
  }
}

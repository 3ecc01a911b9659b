/** Whole runs of the store: every sequence of operations behaves like a map. */
module Runs {
  import opened Basics
  import opened RecordFormat
  import opened RecordScan
  import opened Log
  import opened Accounting
  import opened Store
  import opened Compaction
  import opened Recovery

  // ---------------------------------------------------------------- Get

  function Checked(env: Env, e: Entry): (r: (Status, Bytes))
  {
    if env.Validate(e) then (Ok, env.Plain(e.value)) else (Corruption, [])
  }

  /** HandleGet past the index, reading the file with a RecordIterator. */
  function DirectRead(env: Env, file: Bytes, d: Dir): (r: (Status, Bytes))
  {
    match Visible(file, d.loc.offset)
    case None => (Corruption, [])
    case Some(p) => Checked(env, p.entry)
  }

  /** HandleGet past the index, decoding the bytes that the block cache put together. */
  function CachedRead(env: Env, bytes: Bytes): (r: (Status, Bytes))
  {
    match UnPack(bytes)
    case None => (Corruption, [])
    case Some(p) => Checked(env, p.entry)
  }

  /** The bytes of the record an index entry points to. */
  function RecordBytes(file: Bytes, d: Dir): (bytes: Bytes)
    requires d.loc.offset + d.entrySize <= |file|
  {
    file[d.loc.offset..d.loc.offset + d.entrySize]
  }

  /** What both read paths make of the bytes they find, sound or not: nothing that decodes, or a record
      whose checksum is not that of its key and stored value, is corrupt; any other record gives its
      value, uncompressed if the option is set. */
  lemma ReadsCheck(env: Env, bytes: Bytes, file: Bytes, d: Dir)
    ensures CachedRead(env, bytes)
         == match UnPack(bytes)
            case None => (Corruption, [])
            case Some(p) =>
              if p.entry.checksum != env.checksum(p.entry.key, p.entry.value) then (Corruption, [])
              else (Ok, if env.compressValue then env.uncompress(p.entry.value) else p.entry.value)
    ensures DirectRead(env, file, d)
         == match Visible(file, d.loc.offset)
            case None => (Corruption, [])
            case Some(p) =>
              if p.entry.checksum != env.checksum(p.entry.key, p.entry.value) then (Corruption, [])
              else (Ok, if env.compressValue then env.uncompress(p.entry.value) else p.entry.value)
  {
    hide UnPack, Visible;
  }

  /** What both read paths of a Get return for a key of the map: the cached path always its value,
      the direct path its value unless the record ends exactly at the end of the file. */
  lemma GetReturnsView(env: Env, s: Store, key: Bytes)
    requires Inv(env, s) && key in s.mem.indices
    ensures var d := s.mem.indices[key];
            && d.loc.id in s.log && Total(s.log[d.loc.id]) <= MAX_FILE_BYTES
            && d.loc.offset + d.entrySize <= MAX_FILE_BYTES
            && CachedRead(env, RecordBytes(Image(s.log[d.loc.id]), d)) == (Ok, View(env, s)[key])
            && DirectRead(env, Image(s.log[d.loc.id]), d)
               == if d.loc.offset + d.entrySize < MAX_FILE_BYTES then (Ok, View(env, s)[key]) else (Corruption, [])
  {
    var d := s.mem.indices[key];
    assert SoundAt(s.log, key, d);
    var i := EntryInFile(s.log, key, d);
    var rs := s.log[d.loc.id];
    RecordGenuine(env, s, d.loc.id, i);
    assert Genuine(env, rs);
    RecordAtOffset(rs, i);
    ReadBackCached(env, rs, i, d);
    ReadBackDirect(env, rs, i, d);
  }

  lemma ReadBackCached(env: Env, rs: seq<Entry>, i: nat, d: Dir)
    requires i < |rs| && Total(rs) <= MAX_FILE_BYTES && Storable(rs[i]) && env.Validate(rs[i])
    requires d.loc.offset == Offset(rs, i) && d.entrySize == Size(rs[i])
    ensures d.loc.offset + d.entrySize <= MAX_FILE_BYTES
    ensures CachedRead(env, RecordBytes(Image(rs), d)) == (Ok, env.Plain(rs[i].value))
  {
    RecordBytesAre(rs, i, d, Pack(rs[i]));
    CachedReadOf(env, RecordBytes(Image(rs), d), rs[i]);
  }

  lemma RecordBytesAre(rs: seq<Entry>, i: nat, d: Dir, p: Bytes)
    requires i < |rs| && Total(rs) <= MAX_FILE_BYTES && p == Pack(rs[i])
    requires d.loc.offset == Offset(rs, i) && d.entrySize == |p|
    ensures d.loc.offset + d.entrySize <= MAX_FILE_BYTES
    ensures RecordBytes(Image(rs), d) == p
  {
    ImageBytes(rs, i, d.loc.offset, p);
    var file := Image(rs);
    RecordBytesIs(file, d, p);
  }

  lemma RecordBytesIs(file: Bytes, d: Dir, p: Bytes)
    requires d.loc.offset + |p| <= |file| && file[d.loc.offset..d.loc.offset + |p|] == p && d.entrySize == |p|
    ensures RecordBytes(file, d) == p
  {
  }

  lemma CachedReadOf(env: Env, bytes: Bytes, e: Entry)
    requires Storable(e) && env.Validate(e) && bytes == Pack(e)
    ensures CachedRead(env, bytes) == (Ok, env.Plain(e.value))
  {
    RoundTrip(e, []);
    assert Pack(e) + [] == Pack(e);
  }

  lemma ReadBackDirect(env: Env, rs: seq<Entry>, i: nat, d: Dir)
    requires i < |rs| && Total(rs) <= MAX_FILE_BYTES && AllStorable(rs) && env.Validate(rs[i])
    requires d.loc.offset == Offset(rs, i) && d.entrySize == Size(rs[i])
    ensures DirectRead(env, Image(rs), d)
         == if d.loc.offset + d.entrySize < MAX_FILE_BYTES then (Ok, env.Plain(rs[i].value)) else (Corruption, [])
  {
    VisibleAt(rs, i);
    VisibleEnd(rs, i);
  }

  // ---------------------------------------------------------------- runs

  /** WriteIndexFile is the deferred task that writes a sealed file's index file; Reopen is a
      close, or a crash between two operations, followed by an open. */
  datatype Op = DoPut(key: Bytes, value: Bytes) | DoDelete(key: Bytes) | DoCompact(file: FileId) | DoPoll
              | WriteIndexFile(file: FileId) | DoReopen

  ghost function Apply(env: Env, s: Store, op: Op): (s': Store)
  {
    match op
    case DoPut(key, value) => Put(env, s, key, value).1
    case DoDelete(key) => Put(env, s, key, []).1
    case DoCompact(f) => Compact(s, f)
    case DoPoll => s.(mem := Polled(s.mem))
    case WriteIndexFile(f) => if f < s.active then s.(indexed := s.indexed + {f}) else s
    case DoReopen => Reopen(env, s)
  }

  /** What the operation does to the map the user sees. */
  function MapStep(env: Env, m: map<Bytes, Bytes>, op: Op): (m': map<Bytes, Bytes>)
  {
    match op
    case DoPut(key, value) =>
      if Size(env.Record(key, value)) > MAX_FILE_BYTES then m
      else if value == [] then m - {key} else m[key := value]
    case DoDelete(key) => if Size(env.Record(key, [])) > MAX_FILE_BYTES then m else m - {key}
    case _ => m
  }

  ghost predicate PutAllowed(env: Env, key: Bytes, value: Bytes)
  {
    |key| < 0x100 && Size(env.Record(key, value)) < 0x1_0000_0000
  }

  /** The operations a run may take in state s. A file is compacted only if that loses nothing. In a run
      that reopens the store (durable), a file that still hides a deleted key stays, and recovery sees
      every live record and every tombstone that hides a Set when the store is reopened. */
  ghost predicate Allowed(env: Env, s: Store, op: Op, durable: bool)
  {
    match op
    case DoPut(key, value) => PutAllowed(env, key, value)
    case DoDelete(key) => PutAllowed(env, key, [])
    case DoCompact(f) =>
      f in s.log ==> f !in s.mem.tasks && Safe(s, f) && (durable ==> !Resurrects(s.log, f))
    case DoPoll => true
    case WriteIndexFile(f) => true
    case DoReopen => durable && Harmless(s.log, SeenLog(s.log, s.indexed))
  }

  lemma PollKeepsMem(log: Log, m: Mem, threshold: nat, u: map<FileId, nat>)
    requires MemOk(log, m, threshold, u)
    ensures MemOk(log, Polled(m), threshold, u)
  {
    var m' := Polled(m);
    forall f | StateOf(m', f).state != Compacting ensures Balanced(log, m', u, f) {
      assert Balanced(log, m, u, f);
    }
  }

  lemma PutRefines(env: Env, s: Store, key: Bytes, value: Bytes, durable: bool)
    requires Inv(env, s) && env.Lossless() && PutAllowed(env, key, value) && (durable ==> Durable(s))
    ensures var s' := Put(env, s, key, value).1;
            && Inv(env, s')
            && View(env, s') == MapStep(env, View(env, s), DoPut(key, value))
            && (durable ==> Durable(s'))
  {
    hide Inv, Put, View, Durable;
    PutKeepsInv(env, s, key, value);
    PutUpdatesView(env, s, key, value);
    if durable { PutKeepsDurable(env, s, key, value); }
  }

  lemma CompactRefines(env: Env, s: Store, f: FileId, durable: bool)
    requires Inv(env, s) && Allowed(env, s, DoCompact(f), durable) && (durable ==> Durable(s))
    ensures var s' := Compact(s, f);
            && Inv(env, s')
            && View(env, s') == View(env, s)
            && (durable ==> Durable(s'))
  {
    if f in s.log {
      CompactKeepsInv(env, s, f);
      CompactKeepsView(env, s, f);
      if durable { CompactKeepsDurable(env, s, f); }
    }
  }

  lemma BackgroundRefines(env: Env, s: Store, op: Op)
    requires Inv(env, s) && (op.DoPoll? || op.WriteIndexFile?)
    ensures Inv(env, Apply(env, s, op))
    ensures Apply(env, s, op).log == s.log && Apply(env, s, op).mem.indices == s.mem.indices
  {
    PollKeepsMem(s.log, s.mem, env.threshold, s.uncharged);
    assert FilesOk(env, Apply(env, s, op));
  }

  /** Every allowed operation keeps the invariant and does to the store's contents what it does to
      a map. */
  lemma StepRefinesMap(env: Env, s: Store, op: Op, durable: bool)
    requires Inv(env, s) && env.Lossless() && Allowed(env, s, op, durable) && (durable ==> Durable(s))
    ensures var s' := Apply(env, s, op);
            && Inv(env, s')
            && View(env, s') == MapStep(env, View(env, s), op)
            && (durable ==> Durable(s'))
  {
    hide MemOk, Put, Compact, Contents, Replayed, Safe, Harmless, SeenLog, RecoverAll, Genuine;
    match op
    case DoPut(key, value) => PutRefines(env, s, key, value, durable);
    case DoDelete(key) => PutRefines(env, s, key, [], durable);
    case DoCompact(f) => CompactRefines(env, s, f, durable);
    case DoPoll => BackgroundRefines(env, s, op);
    case WriteIndexFile(f) => BackgroundRefines(env, s, op);
    case DoReopen =>
      ReopenKeepsInv(env, s);
      ReopenKeepsView(env, s);
  }

  /** With its index file, recovery sees all of a file, also a record that fills it to its last byte. The
      other files are seen as before. */
  lemma IndexFileShowsAll(env: Env, s: Store, f: FileId)
    requires f in s.log && f < s.active
    ensures var s' := Apply(env, s, WriteIndexFile(f));
            && s'.log == s.log
            && SeenLog(s'.log, s'.indexed)[f] == s.log[f]
            && forall g :: g in s.log && g != f ==> SeenLog(s'.log, s'.indexed)[g] == SeenLog(s.log, s.indexed)[g]
  {
    hide Seen;
  }

  ghost function Run(env: Env, s: Store, ops: seq<Op>): (s': Store)
    decreases |ops|
  {
    if ops == [] then s else Run(env, Apply(env, s, ops[0]), ops[1..])
  }

  /** A run from s: each operation is allowed where it happens. */
  ghost predicate AllowedRun(env: Env, s: Store, ops: seq<Op>, durable: bool)
    decreases |ops|
  {
    ops == [] || (Allowed(env, s, ops[0], durable) && AllowedRun(env, Apply(env, s, ops[0]), ops[1..], durable))
  }

  function MapRun(env: Env, m: map<Bytes, Bytes>, ops: seq<Op>): (m': map<Bytes, Bytes>)
    decreases |ops|
  {
    if ops == [] then m else MapRun(env, MapStep(env, m, ops[0]), ops[1..])
  }

  /** Over every allowed run the store is a map: its contents are what the Puts and Deletes alone
      would make of a map, whatever rollovers, compactions, crashes and reopenings happened. */
  lemma {:induction false} RunRefinesMap(env: Env, s: Store, ops: seq<Op>, durable: bool)
    requires Inv(env, s) && env.Lossless() && (durable ==> Durable(s)) && AllowedRun(env, s, ops, durable)
    ensures var s' := Run(env, s, ops);
            && Inv(env, s')
            && View(env, s') == MapRun(env, View(env, s), ops)
            && (durable ==> Durable(s'))
    decreases |ops|
  {
    if ops != [] {
      StepRefinesMap(env, s, ops[0], durable);
      RunRefinesMap(env, Apply(env, s, ops[0]), ops[1..], durable);
    }
  }

  // ---------------------------------------------------------------- the compaction queue

  /** File f has been polled, or is being compacted, and is not in the queue. */
  predicate Out(m: Mem, f: FileId)
  {
    StateOf(m, f).state in {Scheduling, Compacting} && f !in m.tasks
  }

  /** The two memories differ in no file's place in the scheduling. */
  ghost predicate SameScheduling(a: Mem, b: Mem)
  {
    a.tasks == b.tasks && forall f :: StateOf(a, f).state == StateOf(b, f).state
  }

  lemma CopyStepSchedulesNothing(s: Store, f: FileId, i: nat)
    ensures SameScheduling(s.mem, CopyStep(s, f, i).mem)
  {
  }

  lemma {:induction false} CopySchedulesNothing(s: Store, f: FileId, n: nat)
    ensures SameScheduling(s.mem, CopyUpTo(s, f, n).mem)
  {
    hide CopyStep;
    if n > 0 {
      CopySchedulesNothing(s, f, n - 1);
      CopyStepSchedulesNothing(CopyUpTo(s, f, n - 1), f, n - 1);
    }
  }

  lemma PublishKeepsOut(m: Mem, threshold: nat, loc: Location, key: Bytes, isDelete: bool, size: nat, f: FileId)
    requires Out(m, f)
    ensures var m' := Publish(m, threshold, loc, key, isDelete, size).1;
            Out(m', f) && StateOf(m', f).state == StateOf(m, f).state
  {
  }

  /** What a scheduled file's place in the queue does not depend on: everything but its own
      compaction and a reopen. */
  predicate LeavesScheduled(op: Op, f: FileId)
  {
    !op.DoReopen? && op != DoCompact(f)
  }

  lemma StepKeepsOut(env: Env, s: Store, op: Op, f: FileId)
    requires Out(s.mem, f) && LeavesScheduled(op, f)
    ensures var m' := Apply(env, s, op).mem; Out(m', f) && StateOf(m', f).state == StateOf(s.mem, f).state
  {
    hide CopyUpTo, Publish, PublishUncharged, Seen;
    match op
    case DoPut(key, value) =>
      var e := env.Record(key, value);
      PublishKeepsOut(s.mem, env.threshold, Append(s, e).1, key, value == [], SizeOf(e), f);
    case DoDelete(key) =>
      var e := env.Record(key, []);
      PublishKeepsOut(s.mem, env.threshold, Append(s, e).1, key, true, SizeOf(e), f);
    case DoCompact(g) =>
      if g in s.log { CompactKeepsOut(s, g, f); }
    case DoPoll =>
    case WriteIndexFile(g) =>
  }

  lemma CompactKeepsOut(s: Store, g: FileId, f: FileId)
    requires Out(s.mem, f) && g in s.log && g != f
    ensures var m' := Compact(s, g).mem; Out(m', f) && StateOf(m', f).state == StateOf(s.mem, f).state
  {
    hide CopyUpTo;
    CopySchedulesNothing(StartCompact(s, g), g, RECORDS_PER_FILE);
    assert StateOf(Copied(s, g).mem, f).state == StateOf(s.mem, f).state;
  }

  lemma {:induction false} RunKeepsOut(env: Env, s: Store, ops: seq<Op>, f: FileId)
    requires Out(s.mem, f) && forall op :: op in ops ==> LeavesScheduled(op, f)
    ensures var m' := Run(env, s, ops).mem; Out(m', f) && StateOf(m', f).state == StateOf(s.mem, f).state
    decreases |ops|
  {
    hide Apply, Out;
    if ops != [] {
      StepKeepsOut(env, s, ops[0], f);
      RunKeepsOut(env, Apply(env, s, ops[0]), ops[1..], f);
    }
  }

  /** A polled file is not queued again until its state is erased: in every run after the poll, up to
      the file's own compaction or a reopen, whatever is written, compacted or polled. */
  lemma PolledStaysOut(env: Env, s: Store, ops: seq<Op>, f: FileId)
    requires Inv(env, s) && f in s.mem.tasks && forall op :: op in ops ==> LeavesScheduled(op, f)
    ensures var m' := Run(env, Apply(env, s, DoPoll), ops).mem;
            f !in m'.tasks && StateOf(m', f).state == Scheduling
  {
    RunKeepsOut(env, Apply(env, s, DoPoll), ops, f);
  }

  /** The file has been polled, or is being compacted. */
  predicate Marked(m: Mem, f: FileId)
  {
    StateOf(m, f).state in {Scheduling, Compacting}
  }

  lemma CompactMarksNothing(s: Store, g: FileId, f: FileId)
    requires g in s.log && Marked(Compact(s, g).mem, f)
    ensures Marked(s.mem, f) && f != g
  {
    hide CopyUpTo;
    CopySchedulesNothing(StartCompact(s, g), g, RECORDS_PER_FILE);
    if f != g { assert StateOf(Copied(s, g).mem, f).state == StateOf(s.mem, f).state; }
  }

  lemma PublishMarksNothing(m: Mem, threshold: nat, loc: Location, key: Bytes, isDelete: bool, size: nat, f: FileId)
    requires Marked(Publish(m, threshold, loc, key, isDelete, size).1, f)
    ensures Marked(m, f)
  {
  }

  lemma RecoverMarksNothing(m: Mem, threshold: nat, loc: Location, kind: byte, key: Bytes, size: nat, f: FileId)
    requires !Marked(m, f)
    ensures !Marked(Recover(m, threshold, loc, kind, key, size), f)
  {
  }

  lemma {:induction false} RecoverFileMarksNothing(m: Mem, threshold: nat, id: FileId, rs: seq<Entry>, n: nat, f: FileId)
    requires n <= |rs| && !Marked(m, f)
    ensures !Marked(RecoverFile(m, threshold, id, rs, n), f)
  {
    hide Recover, Marked;
    if n > 0 {
      RecoverFileMarksNothing(m, threshold, id, rs, n - 1, f);
      RecoverMarksNothing(RecoverFile(m, threshold, id, rs, n - 1), threshold, Location(id, Offset(rs, n - 1)),
                          rs[n - 1].kind, rs[n - 1].key, Size(rs[n - 1]), f);
    }
  }

  lemma {:induction false} RecoverAllMarksNothing(log: Log, threshold: nat, f: FileId)
    ensures !Marked(RecoverAll(log, threshold), f)
    decreases |log|
  {
    hide RecoverFile;
    if log != map[] {
      var last := LastFile(log);
      RecoverAllMarksNothing(Removed(log, last), threshold, f);
      RecoverFileMarksNothing(RecoverAll(Removed(log, last), threshold), threshold, last, log[last], |log[last]|, f);
    }
  }

  /** No file of a new or a reopened store is marked. */
  lemma OpenedUnmarked(env: Env, s: Store, f: FileId)
    ensures !Marked(Created().mem, f) && !Marked(Reopen(env, s).mem, f)
  {
    hide RecoverAll;
    RecoverAllMarksNothing(SeenLog(s.log, s.indexed), env.threshold, f);
  }

  /** Only a poll marks a file, and only one that it finds in the queue; a reopen unmarks it. */
  lemma StepMarks(env: Env, s: Store, op: Op, f: FileId)
    requires Marked(Apply(env, s, op).mem, f)
    ensures !op.DoReopen? && (op.DoCompact? && op.file == f ==> f !in s.log)
    ensures Marked(s.mem, f) || (op.DoPoll? && f in s.mem.tasks)
  {
    hide Copied, Publish, PublishUncharged, Seen, RecoverAll;
    match op
    case DoPut(key, value) =>
      var e := env.Record(key, value);
      if SizeOf(e) <= MAX_FILE_BYTES { PublishMarksNothing(s.mem, env.threshold, Append(s, e).1, key, value == [], SizeOf(e), f); }
    case DoDelete(key) =>
      var e := env.Record(key, []);
      if SizeOf(e) <= MAX_FILE_BYTES { PublishMarksNothing(s.mem, env.threshold, Append(s, e).1, key, true, SizeOf(e), f); }
    case DoCompact(g) => if g in s.log { CompactMarksNothing(s, g, f); }
    case DoPoll =>
    case WriteIndexFile(g) =>
    case DoReopen => OpenedUnmarked(env, s, f);
  }

  lemma RunLast(env: Env, s: Store, ops: seq<Op>, op: Op)
    ensures Run(env, s, ops + [op]) == Apply(env, Run(env, s, ops), op)
    decreases |ops|
  {
    hide Apply;
    if ops == [] {
      assert ops + [op] == [op] && [op][1..] == [];
    } else {
      RunLast(env, Apply(env, s, ops[0]), ops[1..], op);
      assert (ops + [op])[0] == ops[0] && (ops + [op])[1..] == ops[1..] + [op];
    }
  }

  /** A file is marked only if a poll has found it in the queue since, and no reopen has come behind. */
  lemma {:induction false} MarkedWasPolled(env: Env, s: Store, ops: seq<Op>, f: FileId) returns (i: nat)
    requires !Marked(s.mem, f) && Marked(Run(env, s, ops).mem, f)
    ensures i < |ops| && ops[i].DoPoll? && f in Run(env, s, ops[..i]).mem.tasks
    ensures forall j :: i < j < |ops| ==> !ops[j].DoReopen?
    decreases |ops|
  {
    hide Apply, Marked;
    assert ops != [];
    var n := |ops| - 1;
    var t := Run(env, s, ops[..n]);
    assert ops == ops[..n] + [ops[n]];
    RunLast(env, s, ops[..n], ops[n]);
    StepMarks(env, t, ops[n], f);
    if Marked(t.mem, f) {
      i := MarkedWasPolled(env, s, ops[..n], f);
      assert ops[..n][..i] == ops[..i];
    } else {
      i := n;
    }
  }

  /** So every file that no poll has found in the queue is queued exactly when its free bytes have reached
      the threshold, over every run, from a new or a reopened store. */
  lemma QueuedInRun(env: Env, s: Store, ops: seq<Op>, durable: bool, f: FileId)
    requires Inv(env, s) && AllowedRun(env, s, ops, durable) && env.threshold > 0 && !Marked(s.mem, f)
    requires forall i :: 0 <= i < |ops| && ops[i].DoPoll? ==> f !in Run(env, s, ops[..i]).mem.tasks
    ensures var m := Run(env, s, ops).mem; f in m.tasks <==> StateOf(m, f).free >= env.threshold
  {
    hide Apply, Allowed, Marked;
    RunKeepsInv(env, s, ops, durable);
    if Marked(Run(env, s, ops).mem, f) {
      var i := MarkedWasPolled(env, s, ops, f);
      assert false;
    }
    UnmarkedQueued(env, Run(env, s, ops), f);
  }

  lemma UnmarkedQueued(env: Env, s: Store, f: FileId)
    requires Inv(env, s) && env.threshold > 0 && !Marked(s.mem, f)
    ensures f in s.mem.tasks <==> StateOf(s.mem, f).free >= env.threshold
  {
  }

  lemma {:induction false} RunKeepsInv(env: Env, s: Store, ops: seq<Op>, durable: bool)
    requires Inv(env, s) && AllowedRun(env, s, ops, durable)
    ensures Inv(env, Run(env, s, ops))
    decreases |ops|
  {
    hide Inv, Apply, Allowed;
    if ops != [] {
      StepKeepsInv(env, s, ops[0], durable);
      RunKeepsInv(env, Apply(env, s, ops[0]), ops[1..], durable);
    }
  }

  lemma StepKeepsInv(env: Env, s: Store, op: Op, durable: bool)
    requires Inv(env, s) && Allowed(env, s, op, durable)
    ensures Inv(env, Apply(env, s, op))
  {
    hide Inv, Safe, Copied, DropFile, Reopen, Put, Harmless, Resurrects;
    match op
    case DoPut(key, value) => PutKeepsInv(env, s, key, value);
    case DoDelete(key) => PutKeepsInv(env, s, key, []);
    case DoCompact(f) => if f in s.log { CompactKeepsInv(env, s, f); }
    case DoPoll => BackgroundRefines(env, s, op);
    case WriteIndexFile(f) => BackgroundRefines(env, s, op);
    case DoReopen => FilesAre(env, s); ReopenKeepsInv(env, s);
  }

  lemma StepKeepsGone(env: Env, s: Store, op: Op, durable: bool, g: FileId)
    requires Inv(env, s) && Allowed(env, s, op, durable) && g < s.active && g !in s.log
    ensures g < Apply(env, s, op).active && g !in Apply(env, s, op).log
  {
    hide MemOk, Genuine, Copied, RecoverAll, Safe, Harmless, Resurrects, Publish, PublishUncharged;
    match op
    case DoPut(key, value) =>
    case DoDelete(key) =>
    case DoCompact(f) => if f in s.log { CompactSparesOthers(env, s, f); }
    case DoPoll =>
    case WriteIndexFile(f) =>
    case DoReopen =>
  }

  /** The id of a removed file is never handed out again, in the same session or after a reopen. */
  lemma {:induction false} IdsAreNotReused(env: Env, s: Store, ops: seq<Op>, durable: bool, g: FileId)
    requires Inv(env, s) && AllowedRun(env, s, ops, durable) && g < s.active && g !in s.log
    ensures g !in Run(env, s, ops).log && g < Run(env, s, ops).active
    decreases |ops|
  {
    hide Inv, Apply, Allowed;
    if ops != [] {
      StepKeepsInv(env, s, ops[0], durable);
      StepKeepsGone(env, s, ops[0], durable, g);
      IdsAreNotReused(env, Apply(env, s, ops[0]), ops[1..], durable, g);
    }
  }

  /** A new database: one empty data file with id 1. */
  function Created(): (s: Store)
  {
    Store(map[1 := []], 1, {}, NO_MEM, 1, map[])
  }

  /** A new database is an empty map, on disk as well. */
  lemma CreatedIsEmpty(env: Env)
    ensures Inv(env, Created()) && Durable(Created()) && View(env, Created()) == map[]
  {
    NothingRebuilt(env.threshold);
    EmptyFileRebuilt(map[], NO_MEM, env.threshold, 1);
    assert FilesOk(env, Created());
  }

  /** The end-to-end statement: after any allowed run of a new database, Get through the index, the
      bytes of the data file, the decoder and the checksum returns the value last put, and finds
      nothing for a key never put or since deleted. */
  lemma GetAfterRun(env: Env, ops: seq<Op>, durable: bool, key: Bytes)
    requires env.Lossless() && AllowedRun(env, Created(), ops, durable)
    ensures var s, m := Run(env, Created(), ops), MapRun(env, map[], ops);
            && (key in s.mem.indices <==> key in m)
            && (key in m ==>
                  var d := s.mem.indices[key];
                  && d.loc.id in s.log && Total(s.log[d.loc.id]) <= MAX_FILE_BYTES
                  && d.loc.offset + d.entrySize <= MAX_FILE_BYTES
                  && CachedRead(env, RecordBytes(Image(s.log[d.loc.id]), d)) == (Ok, m[key])
                  && DirectRead(env, Image(s.log[d.loc.id]), d)
                     == if d.loc.offset + d.entrySize < MAX_FILE_BYTES then (Ok, m[key]) else (Corruption, []))
  {
    CreatedIsEmpty(env);
    RunRefinesMap(env, Created(), ops, durable);
    if key in Run(env, Created(), ops).mem.indices {
      GetReturnsView(env, Run(env, Created(), ops), key);
    }
  }
}

/** Concrete runs in which the store falls short of a map, one for each condition that the general
    statements need: a record that fills its file, a key that is too long, a tombstone that is compacted
    away too early, an active file in the compaction queue, and a block that was cached too early. */
module Limits {
  import opened Basics
  import opened RecordFormat
  import opened RecordScan
  import opened Log
  import opened Accounting
  import opened Store
  import opened Compaction
  import opened Recovery
  import opened Runs
  import opened Blocks
  import opened BlockCache
  import opened CacheRuns

  // ---------------------------------------------------------------- a full file

  /** A new database takes a record that fills its file to the last byte, and has the key. A direct
      Get of it fails, and after a reopen the key is gone. */
  lemma FullFileIsLost(env: Env, key: Bytes, value: Bytes)
    requires env.Lossless() && |key| < 0x100 && value != [] && Size(env.Record(key, value)) == MAX_FILE_BYTES
    ensures var s := Put(env, Created(), key, value).1;
            && View(env, s) == map[key := value] && Durable(s)
            && s.log == map[1 := [env.Record(key, value)]] && s.mem.indices == map[key := Dir(MAX_FILE_BYTES, Location(1, 0))]
            && Total(s.log[1]) == MAX_FILE_BYTES
            && DirectRead(env, Image(s.log[1]), s.mem.indices[key]) == (Corruption, [])
            && View(env, Reopen(env, s)) == map[]
  {
    hide Inv, Durable, View, Visible, UnPack, Image;
    var s := Put(env, Created(), key, value).1;
    CreatedIsEmpty(env);
    PutEffect(env, Created(), key, value);
    PutKeepsInv(env, Created(), key, value);
    PutKeepsDurable(env, Created(), key, value);
    PutUpdatesView(env, Created(), key, value);
    OneRecord(env.Record(key, value));
    GetReturnsView(env, s, key);
    NothingSeen(env, s, env.Record(key, value));
  }

  lemma OneRecord(e: Entry)
    ensures Total([]) == 0 && Total([e]) == Size(e) && Appended(map[1 := []], 1, e) == map[1 := [e]]
    ensures EndOf(map[1 := []], 1) == Location(1, 0)
  {
    assert [e][..0] == [];
    assert [] + [e] == [e];
  }

  lemma NothingSeen(env: Env, s: Store, e: Entry)
    requires FilesOk(env, s) && s.log == map[1 := [e]] && s.indexed == {} && Size(e) == MAX_FILE_BYTES
    ensures View(env, Reopen(env, s)) == map[]
  {
    hide FilesOk, RecoverAll, MemOk, Replayed;
    ReopenRebuilt(env, s);
    FullUnseen(env, s.log, e);
    NoWinner(SeenLog(s.log, s.indexed));
  }

  lemma FullUnseen(env: Env, log: Log, e: Entry)
    requires log == map[1 := [e]] && Size(e) == MAX_FILE_BYTES
    ensures SeenLog(log, {}) == map[1 := []]
  {
    OneRecord(e);
    assert [e][..0] == [];
  }

  lemma NoWinner(log: Log)
    requires forall p :: !Winner(log, p)
    ensures Replayed(log) == map[]
  {
    assert forall k :: k in Replayed(log) ==> Winner(log, Winners(log)[k]);
    assert Replayed(log).Keys == {};
  }

  /** The same with a tombstone: the Delete succeeds and the key is gone, but its record fills the file
      and recovery does not see it. After a reopen the deleted key is back. */
  lemma FullFileUndeletes(env: Env, key: Bytes, value: Bytes)
    requires env.Lossless() && |key| < 0x100 && value != []
    requires Size(env.Record(key, value)) + Size(env.Record(key, [])) == MAX_FILE_BYTES
    ensures var (status, s) := Put(env, Put(env, Created(), key, value).1, key, []);
            && status == Ok && View(env, s) == map[] && Inv(env, s) && Durable(s)
            && (forall f :: f in s.log ==> !Blind(s, f))
            && View(env, Reopen(env, s)) == map[key := value]
  {
    hide Inv, Durable, View, Blind, FilesOk;
    var put, del := env.Record(key, value), env.Record(key, []);
    var s1 := Put(env, Created(), key, value).1;
    CreatedIsEmpty(env);
    OneRecord(put);
    PutEffect(env, Created(), key, value);
    PutKeepsInv(env, Created(), key, value);
    PutKeepsDurable(env, Created(), key, value);
    PutUpdatesView(env, Created(), key, value);
    PutEffect(env, s1, key, []);
    PutKeepsInv(env, s1, key, []);
    PutKeepsDurable(env, s1, key, []);
    PutUpdatesView(env, s1, key, []);
    var s := Put(env, s1, key, []).1;
    NothingBlind(s);
    OnlyPutSeen(env, s, s1, put, del);
  }

  lemma NothingBlind(s: Store)
    requires s.mem.indices == map[]
    ensures forall f :: !Blind(s, f)
  {
  }

  lemma OnlyPutSeen(env: Env, s: Store, s1: Store, put: Entry, del: Entry)
    requires Inv(env, s) && Inv(env, s1) && Durable(s1) && s.indexed == {}
    requires s1.log == map[1 := [put]] && s.log == Appended(s1.log, 1, del) && Size(put) + Size(del) == MAX_FILE_BYTES
    ensures View(env, Reopen(env, s)) == View(env, s1)
  {
    hide RecoverAll, Replayed, Genuine;
    InvFiles(env, s);
    ReopenRebuilt(env, s);
    LastUnseen(s.log, s1.log, put, del);
    ContentsAppended(env, s1.log, 1, del, s1.mem.indices);
  }

  lemma LastUnseen(log: Log, seen: Log, put: Entry, del: Entry)
    requires seen == map[1 := [put]] && log == Appended(seen, 1, del) && Size(put) + Size(del) == MAX_FILE_BYTES
    ensures SeenLog(log, {}) == seen
  {
    OneRecord(put);
    TotalAppend([put], del);
    assert log == map[1 := [put] + [del]];
    assert ([put] + [del])[..1] == [put];
  }

  // ---------------------------------------------------------------- a key that is too long

  lemma {:induction false} DecodedKeysFit(s: Bytes, o: nat)
    requires o <= |s|
    ensures forall e :: e in Decode(s, o) ==> |e.key| < 0x100
    decreases |s| - o
  {
    match UnPack(s[o..])
    case None =>
    case Some(p) => DecodedKeysFit(s, o + p.size);
  }

  lemma {:induction false} ScannedKeysFit(s: Bytes, o: nat)
    ensures forall e :: e in Scan(s, o) ==> |e.key| < 0x100
    decreases |s| - o
  {
    match Visible(s, o)
    case None =>
    case Some(p) => ScannedKeysFit(s, o + p.size);
  }

  /** HandlePut takes a key of more than 255 bytes, reports success and keeps it in the index; but
      neither a Get's decoder nor the rebuild loop nor a scan ever finds it in the file. */
  lemma LongKeyIsLost(env: Env, key: Bytes, value: Bytes)
    requires |key| >= 0x100 && value != [] && Size(env.Record(key, value)) < MAX_FILE_BYTES
    ensures var (status, s) := Put(env, Created(), key, value);
            && status == Ok && s.log == map[1 := [env.Record(key, value)]]
            && s.mem.indices == map[key := Dir(Size(env.Record(key, value)), Location(1, 0))]
            && Total(s.log[1]) <= MAX_FILE_BYTES
            && var file := Image(s.log[1]);
               && UnPack(file) != Some(Parsed(env.Record(key, value), Size(env.Record(key, value))))
               && (forall e :: e in Decode(file, 0) || e in Scan(file, 0) ==> e.key != key)
  {
    hide Decode, Scan;
    var e := env.Record(key, value);
    OneRecord(e);
    PutEffect(env, Created(), key, value);
    var file := Image([e]);
    DecodedKeysFit(file, 0);
    ScannedKeysFit(file, 0);
  }

  // ---------------------------------------------------------------- a tombstone that still hides

  /** A compaction passes records that are not live without doing anything. */
  lemma {:induction false} PassesDead(s: Store, f: FileId, n: nat)
    requires f in s.log && n <= |s.log[f]|
    requires forall i :: 0 <= i < n ==> !IsLive(s.mem.indices, s.log[f][i].key, Location(f, Offset(s.log[f], i)))
    ensures CopyUpTo(StartCompact(s, f), f, n) == StartCompact(s, f)
  {
    hide Append, PublishCopy, Seen;
    if n > 0 { PassesDead(s, f, n - 1); }
  }

  /** A file that holds a key, a file that deletes it, and an empty active file. */
  function DeletedLog(env: Env, key: Bytes, value: Bytes): (log: Log)
  {
    map[1 := [env.Record(key, value)], 2 := [env.Record(key, [])], 3 := []]
  }

  /** The store opened on these files, once its compaction queue has been polled. */
  ghost function DeletedStore(env: Env, key: Bytes, value: Bytes): (s: Store)
  {
    Apply(env, Reopen(env, Store(DeletedLog(env, key, value), 3, {}, NO_MEM, 3, map[])), DoPoll)
  }

  /** Opening files that recovery sees completely, and polling the queue. */
  lemma OpenedAndPolled(env: Env, log: Log, last: FileId)
    requires FilesOk(env, Store(log, last, {}, NO_MEM, last, map[])) && SeenLog(log, {}) == log
    ensures var s := Apply(env, Reopen(env, Store(log, last, {}, NO_MEM, last, map[])), DoPoll);
            && Inv(env, s) && Durable(s) && s.log == log && s.active == last && s.maxFile == last && s.indexed == {}
            && s.mem.tasks == [] && s.mem.indices == Replayed(log)
  {
    hide RecoverAll, Replayed, FilesOk, SeenLog, MemOk;
    var files := Store(log, last, {}, NO_MEM, last, map[]);
    ReopenKeepsInv(env, files);
    ReopenRebuilt(env, files);
    BackgroundRefines(env, Reopen(env, files), DoPoll);
  }

  lemma DeletedPositions(env: Env, key: Bytes, value: Bytes)
    requires value != []
    ensures var log := DeletedLog(env, key, value);
            && (forall p :: At(log, p) <==> p == Pos(1, 0) || p == Pos(2, 0))
            && (forall p :: At(Removed(log, 2), p) <==> p == Pos(1, 0))
            && Newest(log, Pos(2, 0)) && Winner(Removed(log, 2), Pos(1, 0)) && (forall p :: !Winner(log, p))
            && Resurrects(log, 2)
  {
    var log := DeletedLog(env, key, value);
    assert Newest(log, Pos(2, 0));
    assert At(log, Pos(2, 0));
    assert Hides(log, {2}, Pos(2, 0), Pos(1, 0));
  }

  lemma DeletedFiles(env: Env, key: Bytes, value: Bytes)
    requires value != [] && |key| < 0x100
    requires Size(env.Record(key, value)) < MAX_FILE_BYTES && Size(env.Record(key, [])) < MAX_FILE_BYTES
    ensures var log := DeletedLog(env, key, value);
            && FilesOk(env, Store(log, 3, {}, NO_MEM, 3, map[]))
            && SeenLog(log, {}) == log && 2 in log && log[2] == [env.Record(key, [])]
  {
    hide Total;
    var log := DeletedLog(env, key, value);
    OneRecord(env.Record(key, value));
    OneRecord(env.Record(key, []));
    assert Genuine(env, log[1]) && Genuine(env, log[2]) && Genuine(env, log[3]);
    assert Wellformed(env, log);
  }

  /** Compacting the file of the tombstone before the file of the key brings the deleted key back
      the next time the store is opened. */
  lemma DeletedKeyReturns(env: Env, key: Bytes, value: Bytes)
    requires env.Lossless() && value != [] && |key| < 0x100
    requires Size(env.Record(key, value)) < MAX_FILE_BYTES && Size(env.Record(key, [])) < MAX_FILE_BYTES
    ensures var s := DeletedStore(env, key, value);
            && Inv(env, s) && Durable(s) && View(env, s) == map[]
            && 2 in s.log && 2 !in s.mem.tasks && Safe(s, 2)
            && View(env, Compact(s, 2)) == map[] && !Durable(Compact(s, 2))
            && key in View(env, Reopen(env, Compact(s, 2)))
  {
    hide Inv, Durable, Resurrects, CopyUpTo, RecoverAll, Replayed, Winner, FilesOk, DeletedLog;
    var s := DeletedStore(env, key, value);
    DeletedFiles(env, key, value);
    DeletedPositions(env, key, value);
    OpenedAndPolled(env, DeletedLog(env, key, value), 3);
    NoWinner(s.log);
    EmptyMem(env, s);
    CompactKeepsInv(env, s, 2);
    CompactKeepsDurable(env, s, 2);
    CompactKeepsView(env, s, 2);
    UnpointedGoes(env, s, 2);
    InvFiles(env, Compact(s, 2));
    SeenPart(s.log, 2);
    Returned(env, Compact(s, 2), key, value);
  }

  lemma UnpointedGoes(env: Env, s: Store, f: FileId)
    requires Inv(env, s) && f in s.log && f !in s.mem.tasks && !PointsInto(s, f)
    ensures Compact(s, f) == DropFile(StartCompact(s, f), f)
  {
    hide CopyUpTo, MemOk, View;
    StartKeeps(env, s, f);
    NothingToCopy(env, StartCompact(s, f), f, RECORDS_PER_FILE);
  }

  lemma EmptyMem(env: Env, s: Store)
    requires s.mem.indices == map[] && Replayed(s.log) == map[]
    ensures Durable(s) && View(env, s) == map[] && !Blind(s, 2) && !PointsInto(s, 2)
  {
  }

  lemma InvFiles(env: Env, s: Store)
    requires Inv(env, s)
    ensures FilesOk(env, s)
  {
  }

  lemma Returned(env: Env, s: Store, key: Bytes, value: Bytes)
    requires FilesOk(env, s) && s.log == Removed(DeletedLog(env, key, value), 2) && s.indexed == {}
    requires SeenLog(s.log, {}) == s.log && value != []
    ensures key in View(env, Reopen(env, s))
  {
    hide FilesOk, RecoverAll, SeenLog, Winner;
    ReopenRebuilt(env, s);
    DeletedPositions(env, key, value);
    assert Rec(s.log, Pos(1, 0)).key == key;
    assert key in Winners(s.log);
  }

  lemma SeenPart(log: Log, f: FileId)
    requires SeenLog(log, {}) == log
    ensures SeenLog(Removed(log, f), {}) == Removed(log, f)
  {
    forall g | g in Removed(log, f) ensures SeenLog(Removed(log, f), {})[g] == log[g] {
      assert SeenLog(log, {})[g] == log[g];
    }
  }

  // ---------------------------------------------------------------- the active file in the queue

  /** UpdateUnused queues whatever file passes the threshold: overwriting one key in a new database
      is enough to queue the active file. */
  lemma ActiveFileIsQueued(env: Env, key: Bytes, a: Bytes, b: Bytes)
    requires env.Lossless() && PutAllowed(env, key, a) && PutAllowed(env, key, b) && a != []
    requires Size(env.Record(key, a)) + Size(env.Record(key, b)) <= MAX_FILE_BYTES
    requires env.threshold <= Size(env.Record(key, a))
    ensures var s := Put(env, Put(env, Created(), key, a).1, key, b).1;
            s.active in s.mem.tasks
  {
    OneRecord(env.Record(key, a));
    var s1 := Put(env, Created(), key, a).1;
    PutEffect(env, Created(), key, a);
    PutEffect(env, s1, key, b);
    QueuedAt(env, s1.mem, EndOf(s1.log, 1), key, b == [], Size(env.Record(key, b)));
  }

  /** Compacting the active file while none of its records is live copies nothing, so no rollover
      happens, and the file that appends go to is removed. */
  lemma DeadActiveFileIsDropped(env: Env, s: Store)
    requires Inv(env, s) && s.active !in s.mem.tasks && !PointsInto(s, s.active)
    ensures var s' := Compact(s, s.active);
            && s'.log == Removed(s.log, s.active) && s'.active == s.active && s'.active !in s'.log && s'.mem.indices == s.mem.indices
            && !Inv(env, s')
  {
    hide MemOk, CopyUpTo;
    UnpointedGoes(env, s, s.active);
  }

  /** A Put and a Delete of one key in a new database get there: the active file is queued, and when
      it has been polled and compacted, no file is left. */
  lemma ActiveFileIsDropped(env: Env, key: Bytes, value: Bytes)
    requires env.Lossless() && PutAllowed(env, key, value) && PutAllowed(env, key, []) && value != []
    requires Size(env.Record(key, value)) + Size(env.Record(key, [])) <= MAX_FILE_BYTES
    requires env.threshold <= Size(env.Record(key, value))
    ensures var s := Put(env, Put(env, Created(), key, value).1, key, []).1;
            && s.active in s.mem.tasks
            && Inv(env, Apply(env, s, DoPoll)) && Compact(Apply(env, s, DoPoll), s.active).log == map[]
  {
    hide Inv, Publish, PublishUncharged, Compact, View;
    var s1 := Put(env, Created(), key, value).1;
    CreatedIsEmpty(env);
    OneRecord(env.Record(key, value));
    PutEffect(env, Created(), key, value);
    PutKeepsInv(env, Created(), key, value);
    PutEffect(env, s1, key, []);
    PutKeepsInv(env, s1, key, []);
    ActiveFileIsQueued(env, key, value, []);
    var s := Put(env, s1, key, []).1;
    BackgroundRefines(env, s, DoPoll);
    DeadActiveFileIsDropped(env, Apply(env, s, DoPoll));
  }

  predicate Divides(n: nat, x: nat)
    requires n > 0
  {
    x % n == 0
  }

  /** One record taken round and round fills a room exactly if its size divides it. */
  lemma {:induction false} FillsAlone(room: nat, e: Entry)
    ensures Fills(room, [e]) <==> room > 0 && Divides(Size(e), room)
    decreases room
  {
    hide Divides, Size;
    SizeIs(e);
    DividesSteps(Size(e), room);
    assert [e][1..] + [e] == [e];
    if room > Size(e) { FillsAlone(room - Size(e), e); }
  }

  lemma DividesSteps(n: nat, x: nat)
    requires n > 0
    ensures 0 < x < n ==> !Divides(n, x)
    ensures Divides(n, n)
    ensures x > n ==> (Divides(n, x) <==> Divides(n, x - n))
  {
    if x > n { LessOne(x, n); }
  }

  lemma LessOne(a: nat, n: nat)
    requires 0 < n <= a
    ensures (a - n) % n == a % n
  {
    assert a - n == n * (a / n - 1) + a % n;
    QuotientIs(a - n, n, a / n - 1, a % n);
  }

  lemma QuotientIs(x: nat, n: nat, q: nat, r: nat)
    requires x == n * q + r && r < n
    ensures x % n == r
  {
    var d := x / n - q;
    assert n * d == r - x % n;
    Gap(n, d);
  }

  lemma Gap(n: nat, d: int)
    ensures d >= 1 ==> n * d >= n
    ensures d <= -1 ==> n * d <= 0 - n
  {
  }

  /** The store once a key has been put twice: the first record is dead and its file queued. */
  lemma Overwritten(env: Env, key: Bytes, a: Bytes, b: Bytes)
    requires env.Lossless() && PutAllowed(env, key, a) && PutAllowed(env, key, b) && a != [] && b != []
    requires Size(env.Record(key, a)) + Size(env.Record(key, b)) <= MAX_FILE_BYTES
    ensures var s := Put(env, Put(env, Created(), key, a).1, key, b).1;
            var first, last := env.Record(key, a), env.Record(key, b);
            && Inv(env, s) && s.log == map[1 := [first, last]] && s.active == 1
            && View(env, s) == map[key := b]
            && s.mem.indices == map[key := Dir(Size(last), Location(1, Size(first)))]
  {
    hide Inv, Publish, PublishUncharged, View, Env.Record;
    var first, last := env.Record(key, a), env.Record(key, b);
    var s1 := Put(env, Created(), key, a).1;
    CreatedIsEmpty(env);
    OneRecord(first);
    PutEffect(env, Created(), key, a);
    PutKeepsInv(env, Created(), key, a);
    PutUpdatesView(env, Created(), key, a);
    PutEffect(env, s1, key, b);
    PutKeepsInv(env, s1, key, b);
    PutUpdatesView(env, s1, key, b);
    assert [first] + [last] == [first, last];
  }

  /** The records of the overwritten key: only the second is live. */
  lemma OverwrittenLive(first: Entry, last: Entry, indices: map<Bytes, Dir>)
    requires first.kind == last.kind == SET && first.key == last.key
    requires indices == map[last.key := Dir(Size(last), Location(1, Size(first)))]
    ensures Total([first, last]) == Size(first) + Size(last)
    ensures LiveRecords([first, last], 1, indices, 0) == [last]
  {
    var rs := [first, last];
    TotalTwo(first, last);
    assert rs[..1] == [first];
    assert LiveRecords(rs, 1, indices, 2) == [];
    assert LiveRecords(rs, 1, indices, 1) == [last] + [];
    assert LiveRecords(rs, 1, indices, 0) == [] + LiveRecords(rs, 1, indices, 1);
  }

  /** A live record does not save the active file. One key is put twice, and the size of its record
      divides the size of a file: the copies of the live record fill the file exactly, the scan does not
      see the last one, and the file is removed though the index points into it. */
  lemma LiveActiveFileIsDropped(env: Env, key: Bytes, a: Bytes, b: Bytes)
    requires env.Lossless() && PutAllowed(env, key, a) && PutAllowed(env, key, b) && a != [] && b != []
    requires var n := Size(env.Record(key, b)); Size(env.Record(key, a)) == n && MAX_FILE_BYTES % n == 0 && 2 * n < MAX_FILE_BYTES
    requires env.threshold <= Size(env.Record(key, a))
    ensures var s0 := Put(env, Put(env, Created(), key, a).1, key, b).1;
            && s0.active in s0.mem.tasks && View(env, s0) == map[key := b]
            && var s := Apply(env, s0, DoPoll);
               && Inv(env, s) && s.active in s.log && s.active !in s.mem.tasks && PointsInto(s, s.active) && !Safe(s, s.active)
               && var s' := Compact(s, s.active);
                  && !Inv(env, s') && key in s'.mem.indices
                  && s'.mem.indices[key] == Dir(Size(env.Record(key, b)), Location(1, MAX_FILE_BYTES - Size(env.Record(key, b))))
                  && 1 !in s'.log
  {
    hide Inv, View, Put, Polled, Env.Record, PointsInto, Safe, Compact;
    var s0 := Put(env, Put(env, Created(), key, a).1, key, b).1;
    Overwritten(env, key, a, b);
    ActiveFileIsQueued(env, key, a, b);
    BackgroundRefines(env, s0, DoPoll);
    RecordIs(env, key, a);
    RecordIs(env, key, b);
    NoTasks(s0);
    OverwrittenIsDropped(env, Apply(env, s0, DoPoll), env.Record(key, a), env.Record(key, b));
  }

  lemma NoTasks(s: Store)
    ensures Polled(s.mem).tasks == []
  {
  }

  lemma OverwrittenIsDropped(env: Env, s: Store, first: Entry, last: Entry)
    requires Inv(env, s) && s.log == map[1 := [first, last]] && s.active == 1 && s.mem.tasks == []
    requires first.kind == last.kind == SET && first.key == last.key
    requires s.mem.indices == map[last.key := Dir(Size(last), Location(1, Size(first)))]
    requires Size(first) == Size(last) && MAX_FILE_BYTES % Size(last) == 0 && 2 * Size(last) < MAX_FILE_BYTES
    ensures PointsInto(s, 1) && !Safe(s, 1)
    ensures var s' := Compact(s, 1);
            && !Inv(env, s') && last.key in s'.mem.indices && 1 !in s'.log
            && s'.mem.indices[last.key] == Dir(Size(last), Location(1, MAX_FILE_BYTES - Size(last)))
  {
    hide Inv, Copied, Blind, Fills, LiveRecords, PointsInto, Safe, Compact, Total, Size;
    OverwrittenLive(first, last, s.mem.indices);
    FillsAlone(MAX_FILE_BYTES - 2 * Size(last), last);
    SizeIs(last);
    TwiceLess(Size(last));
    PointsHere(s, last.key);
    NotSafe(s, [first, last], last);
    CompactKeepsInv(env, s, 1);
    LeftBehind(env, s, last.key, last);
  }

  lemma SizeIs(e: Entry)
    ensures Size(e) > 0
  {
  }

  lemma RecordIs(env: Env, key: Bytes, value: Bytes)
    requires value != []
    ensures env.Record(key, value).kind == SET && env.Record(key, value).key == key
  {
  }

  lemma TwiceLess(n: nat)
    requires n > 0 && MAX_FILE_BYTES % n == 0 && 2 * n < MAX_FILE_BYTES
    ensures Divides(n, MAX_FILE_BYTES - 2 * n)
  {
    LessOne(MAX_FILE_BYTES, n);
    LessOne(MAX_FILE_BYTES - n, n);
  }

  lemma PointsHere(s: Store, key: Bytes)
    requires key in s.mem.indices && s.mem.indices[key].loc.id == s.active
    ensures PointsInto(s, s.active)
  {
  }

  lemma NotSafe(s: Store, rs: seq<Entry>, last: Entry)
    requires s.active in s.log && s.log[s.active] == rs && Total(rs) <= MAX_FILE_BYTES
    requires LiveRecords(rs, s.active, s.mem.indices, 0) == [last] && Fills(MAX_FILE_BYTES - Total(rs), [last])
    ensures !Safe(s, s.active)
  {
  }

  /** What the scan leaves behind of a file with one live record that fills it. */
  lemma LeftBehind(env: Env, s: Store, key: Bytes, e: Entry)
    requires Inv(env, s) && s.active in s.log && s.active !in s.mem.tasks && Total(s.log[s.active]) < MAX_FILE_BYTES
    requires s.mem.indices.Keys == {key} && s.mem.indices[key].entrySize == Size(e) && s.mem.indices[key].loc.id == s.active
    requires LiveRecords(s.log[s.active], s.active, s.mem.indices, 0) == [e] && Fills(MAX_FILE_BYTES - Total(s.log[s.active]), [e])
    ensures var s' := Compact(s, s.active);
            && key in s'.mem.indices && s'.mem.indices[key] == Dir(Size(e), Location(s.active, MAX_FILE_BYTES - Size(e)))
            && s.active !in s'.log
  {
    hide Inv, Copied, LiveRecords, Fills, Total;
    BlindAfter(env, s, s.active);
    CompactMoves(env, s, s.active);
    SameIndices(s, s.active);
    var c := Copied(s, s.active);
    var k :| k in c.mem.indices && c.mem.indices[k].loc.id == s.active
          && c.mem.indices[k].loc.offset + c.mem.indices[k].entrySize == MAX_FILE_BYTES;
    assert k in s.mem.indices.Keys;
    assert k == key;
  }

  /** Exactly when: a file whose compaction has not been scheduled, the active one like any other, is
      queued if and only if its free bytes have reached the threshold. */
  lemma QueuedExactly(env: Env, s: Store, f: FileId)
    requires Inv(env, s) && env.threshold > 0 && StateOf(s.mem, f).state in {Nop, Queued}
    ensures f in s.mem.tasks <==> StateOf(s.mem, f).free >= env.threshold
  {
  }

  lemma QueuedAt(env: Env, m: Mem, loc: Location, key: Bytes, isDelete: bool, size: nat)
    requires key in m.indices && m.states == map[] && m.indices[key].entrySize >= env.threshold
    ensures m.indices[key].loc.id in Publish(m, env.threshold, loc, key, isDelete, size).1.tasks
  {
  }

  // ---------------------------------------------------------------- a stale block

  /** A file whose only live record is its last: compacting it moves that record and nothing else. */
  lemma CompactsLast(env: Env, s: Store, f: FileId, pre: seq<Entry>, e: Entry)
    requires Inv(env, s) && f in s.log && f < s.active && s.log[f] == pre + [e] && Total(s.log[f]) < MAX_FILE_BYTES
    requires e.kind == SET && IsLive(s.mem.indices, e.key, Location(f, Total(pre)))
    requires forall i :: 0 <= i < |pre| ==> !IsLive(s.mem.indices, pre[i].key, Location(f, Offset(pre, i)))
    ensures var s', id := Compact(s, f), Target(s.log, s.active, Size(e));
            && s'.log == Removed(Appended(s.log, id, e), f) && s'.active == id && s'.indexed == s.indexed - {f}
            && s'.maxFile == s.maxFile && s'.mem.tasks == s.mem.tasks
            && s'.mem.indices == s.mem.indices[e.key := Dir(Size(e), EndOf(s.log, id))]
  {
    hide Inv, CopyStep, PublishCopy, Copied, MemOk;
    InvFiles(env, s);
    RecordGenuine(env, s, f, |pre|);
    CopiedLast(env, s, f, pre, e);
    assert (pre + [e])[..|pre|] == pre;
    CopyStepEffect(StartCompact(s, f), f, |pre|);
  }

  lemma CopiedLast(env: Env, s: Store, f: FileId, pre: seq<Entry>, e: Entry)
    requires FilesOk(env, s) && f in s.log && f < s.active && s.log[f] == pre + [e] && Total(s.log[f]) < MAX_FILE_BYTES
    requires forall i :: 0 <= i < |pre| ==> !IsLive(s.mem.indices, pre[i].key, Location(f, Offset(pre, i)))
    ensures Copied(s, f) == CopyStep(StartCompact(s, f), f, |pre|)
  {
    var start, n := StartCompact(s, f), |pre| + 1;
    assert FilesOk(env, start);
    hide CopyStep, IsLive, CopyUpTo, FilesOk;
    forall i | 0 <= i < |pre| ensures !IsLive(s.mem.indices, (pre + [e])[i].key, Location(f, Offset(pre + [e], i))) {
      assert (pre + [e])[..i] == pre[..i];
    }
    PassesDead(s, f, |pre|);
    CopyUpToSteps(start, f, |pre|);
    SealedUnchanged(env, start, f, |pre|);
    RecordCount(s.log[f]);
    ScanStops(start, f, n, RECORDS_PER_FILE);
  }

  lemma SealedUnchanged(env: Env, s: Store, f: FileId, i: nat)
    requires FilesOk(env, s) && f in s.log && f < s.active
    ensures RecordsOf(CopyStep(s, f, i).log, f) == s.log[f]
  {
    hide CopyStep, PublishCopy, Genuine;
    RoundEffect(env, s, f, i);
  }

  /** A file with one key, and a second, nearly full one where another key was overwritten. */
  function TwoFiles(first: Entry, filler: Entry, last: Entry): (log: Log)
  {
    map[1 := [first], 2 := [filler, last]]
  }

  ghost function TwoFilesStore(env: Env, first: Entry, filler: Entry, last: Entry): (s: Store)
  {
    Apply(env, Reopen(env, Store(TwoFiles(first, filler, last), 2, {}, NO_MEM, 2, map[])), DoPoll)
  }

  lemma TwoFilesPositions(first: Entry, filler: Entry, last: Entry)
    ensures var log := TwoFiles(first, filler, last);
            && (forall p :: At(log, p) <==> p == Pos(1, 0) || p == Pos(2, 0) || p == Pos(2, 1))
            && Rec(log, Pos(1, 0)) == first && Rec(log, Pos(2, 0)) == filler && Rec(log, Pos(2, 1)) == last
            && DirOf(log, Pos(1, 0)) == Dir(Size(first), Location(1, 0))
            && DirOf(log, Pos(2, 1)) == Dir(Size(last), Location(2, Size(filler)))
  {
    OneRecord(filler);
    assert [filler, last][..1] == [filler];
  }

  lemma TwoFilesReplayed(log: Log, first: Entry, filler: Entry, last: Entry)
    requires forall p :: At(log, p) <==> p == Pos(1, 0) || p == Pos(2, 0) || p == Pos(2, 1)
    requires Rec(log, Pos(1, 0)) == first && Rec(log, Pos(2, 0)) == filler && Rec(log, Pos(2, 1)) == last
    requires first.kind == SET && last.kind == SET && filler.key == last.key != first.key
    ensures Replayed(log) == map[first.key := DirOf(log, Pos(1, 0)), last.key := DirOf(log, Pos(2, 1))]
  {
    hide At, Rec, DirOf;
    assert Winner(log, Pos(1, 0)) && Winner(log, Pos(2, 1));
    assert !Newest(log, Pos(2, 0));
    var w := Winners(log);
    assert forall k :: k in w ==> Winner(log, w[k]) && Rec(log, w[k]).key == k;
    assert forall k :: k in w <==> k == first.key || k == last.key;
    SameMap(Replayed(log), map[first.key := DirOf(log, Pos(1, 0)), last.key := DirOf(log, Pos(2, 1))]);
  }

  /** Two keys in sealed files: the first record does not fit behind the second file's, and is small
      enough to share its block with the record behind it. */
  ghost predicate Crowded(env: Env, first: Entry, filler: Entry, last: Entry)
  {
    && first.kind == SET && filler.kind == SET && last.kind == SET && filler.key == last.key != first.key
    && Storable(first) && Storable(filler) && Storable(last)
    && env.Validate(first) && env.Validate(filler) && env.Validate(last)
    && Size(first) < BLOCK_SIZE && Size(last) < BLOCK_SIZE
    && Size(filler) + Size(last) < MAX_FILE_BYTES < Size(filler) + Size(last) + Size(first)
  }

  lemma TotalTwo(a: Entry, b: Entry)
    ensures Total([a]) == Size(a) && Total([a, b]) == Size(a) + Size(b) && Offset([a, b], 0) == 0
  {
    OneRecord(a);
    TotalAppend([a], b);
    assert [a] + [b] == [a, b];
    assert [a, b][..0] == [];
  }

  lemma CrowdedFiles(env: Env, first: Entry, filler: Entry, last: Entry)
    requires Crowded(env, first, filler, last)
    ensures FilesOk(env, Store(TwoFiles(first, filler, last), 2, {}, NO_MEM, 2, map[]))
    ensures SeenLog(TwoFiles(first, filler, last), {}) == TwoFiles(first, filler, last)
  {
    hide Total;
    var log := TwoFiles(first, filler, last);
    TotalTwo(filler, last);
    OneRecord(first);
    assert Genuine(env, log[1]) && Genuine(env, log[2]);
    assert Wellformed(env, log);
  }

  /** The store as opened, with both keys in its index. */
  lemma CrowdedStart(env: Env, first: Entry, filler: Entry, last: Entry)
    requires Crowded(env, first, filler, last)
    ensures var s := TwoFilesStore(env, first, filler, last);
            && Inv(env, s) && Durable(s)
            && s.log == TwoFiles(first, filler, last) && s.active == 2 && s.maxFile == 2 && s.indexed == {} && s.mem.tasks == []
            && s.mem.indices == map[first.key := Dir(Size(first), Location(1, 0)),
                                    last.key := Dir(Size(last), Location(2, Size(filler)))]
  {
    hide Total, Replayed, FilesOk, TwoFiles, SeenLog, Inv, Apply, Reopen, Durable;
    var log := TwoFiles(first, filler, last);
    CrowdedFiles(env, first, filler, last);
    OpenedAndPolled(env, log, 2);
    TwoFilesPositions(first, filler, last);
    TwoFilesReplayed(log, first, filler, last);
  }

  lemma FirstMoves(first: Entry, filler: Entry, last: Entry)
    requires Size(first) < BLOCK_SIZE && Size(filler) + Size(last) < MAX_FILE_BYTES < Size(filler) + Size(last) + Size(first)
    ensures var log := TwoFiles(first, filler, last);
            && 1 in log && log[1] == [] + [first] && Total(log[1]) == Size(first) && Total([]) == 0
            && Target(log, 2, Size(first)) == 3 && EndOf(log, 3) == Location(3, 0)
            && Removed(Appended(log, 3, first), 1) == map[2 := [filler, last], 3 := [first]]
  {
    TotalTwo(filler, last);
    OneRecord(first);
    assert [] + [first] == [first];
  }

  /** Compacting the first file rolls over to a third, which the bypass does not know. */
  lemma CrowdedFirst(env: Env, first: Entry, filler: Entry, last: Entry, s: Store)
    requires Crowded(env, first, filler, last) && Inv(env, s)
    requires s.log == TwoFiles(first, filler, last) && s.active == 2 && s.maxFile == 2 && s.mem.tasks == []
    requires s.mem.indices == map[first.key := Dir(Size(first), Location(1, 0)), last.key := Dir(Size(last), Location(2, Size(filler)))]
    ensures Safe(s, 1)
    ensures var s' := Compact(s, 1);
            && Inv(env, s') && View(env, s') == View(env, s)
            && s'.log == map[2 := [filler, last], 3 := [first]] && s'.active == 3 && s'.maxFile == 2 && s'.mem.tasks == []
            && s'.mem.indices == map[first.key := Dir(Size(first), Location(3, 0)), last.key := Dir(Size(last), Location(2, Size(filler)))]
  {
    hide Inv, Compact, View, Durable, Storable, Total, Target, Appended, EndOf, TwoFiles;
    FirstMoves(first, filler, last);
    CompactsLast(env, s, 1, [], first);
    CompactKeepsInv(env, s, 1);
    CompactKeepsView(env, s, 1);
  }

  lemma SecondMoves(first: Entry, filler: Entry, last: Entry)
    requires Size(first) < BLOCK_SIZE && Size(last) < BLOCK_SIZE && Size(filler) + Size(last) < MAX_FILE_BYTES
    ensures var log: Log := map[2 := [filler, last], 3 := [first]];
            && log[2] == [filler] + [last] && Total(log[2]) < MAX_FILE_BYTES && Total([filler]) == Size(filler)
            && Offset([filler], 0) == 0
            && Target(log, 3, Size(last)) == 3 && EndOf(log, 3) == Location(3, Size(first))
            && Removed(Appended(log, 3, last), 2) == map[3 := [first, last]]
  {
    TotalTwo(filler, last);
    OneRecord(first);
    OneRecord(filler);
    assert [filler] + [last] == [filler, last] && [first] + [last] == [first, last];
  }

  /** Compacting the second file appends to the third, behind the first record. */
  lemma CrowdedSecond(env: Env, first: Entry, filler: Entry, last: Entry, s: Store)
    requires Crowded(env, first, filler, last) && Inv(env, s)
    requires s.log == map[2 := [filler, last], 3 := [first]] && s.active == 3 && s.maxFile == 2 && s.mem.tasks == []
    requires s.mem.indices == map[first.key := Dir(Size(first), Location(3, 0)), last.key := Dir(Size(last), Location(2, Size(filler)))]
    ensures Safe(s, 2)
    ensures var s' := Compact(s, 2);
            && Inv(env, s') && View(env, s') == View(env, s)
            && s'.log == map[3 := [first, last]] && s'.active == 3 && s'.maxFile == 2
            && s'.mem.indices == map[first.key := Dir(Size(first), Location(3, 0)), last.key := Dir(Size(last), Location(3, Size(first)))]
  {
    hide Inv, Compact, View, Durable, Storable, Total, Target, Appended, EndOf;
    SecondMoves(first, filler, last);
    CompactsLast(env, s, 2, [filler], last);
    CompactKeepsInv(env, s, 2);
    CompactKeepsView(env, s, 2);
  }

  lemma FirstBlockCached(file: Bytes, n: nat)
    requires 0 < n < BLOCK_SIZE <= |file| <= TWO_32 && |file| % BLOCK_SIZE == 0
    ensures var blocks := BlocksAfter(imap[], file, Dir(n, Location(3, 0)));
            BlockIdx(3, n) in blocks && IsBlock(blocks[BlockIdx(3, n)], file, BlockIdx(3, n))
  {
    hide BlockIdx, BlockFile, BlockOffset, ReadBlock, Served, IsBlock;
    SameBlock(3, n);
    BlocksOfRead(3, 0, n, |file|);
    FilledServes(imap[], 3, file, BlockIdx(3, 0), BlockIdx(3, n - 1) + 1);
    NothingCoherent(3, file);
    StartsInFile(3, n);
  }

  lemma SameBlock(id: nat, n: nat)
    requires 0 < n < BLOCK_SIZE
    ensures BlockIdx(id, n) == BlockIdx(id, n - 1) == BlockIdx(id, 0)
  {
    hide BlockIdx, BlockOffset, BlockFile;
    BlockOf(id, 0, 0);
    BlockOfByte(BlockIdx(id, 0), n);
    BlockOfByte(BlockIdx(id, 0), n - 1);
  }

  lemma NothingCoherent(id: nat, file: Bytes)
    ensures Coherent(imap[], id, file)
  {
  }

  lemma InView(env: Env, s: Store, key: Bytes)
    requires key in s.mem.indices
    ensures key in View(env, s)
  {
  }

  /** A run that returns an error for a key that the store holds: a compaction rolls over, a Get of
      the moved record caches a block of the new active file, a second compaction appends its record
      in that block, and a Get of that record, which is not bypassed either, reads the stale block. */
  lemma CachedGetFails(env: Env, first: Entry, filler: Entry, last: Entry)
    requires Crowded(env, first, filler, last)
    ensures var s0 := TwoFilesStore(env, first, filler, last);
            var s1 := Compact(s0, 1);
            var s2 := Compact(s1, 2);
            && Inv(env, s0) && Durable(s0) && s0.log == TwoFiles(first, filler, last)
            && 1 !in s0.mem.tasks && Safe(s0, 1) && 2 !in s1.mem.tasks && Safe(s1, 2)
            && Readable(s1, first.key) && s1.mem.indices[first.key].loc.id == s1.active != s1.maxFile
            && var blocks := BlocksAfter(imap[], Image(s1.log[s1.active]), s1.mem.indices[first.key]);
               && Accessed(env, CachedStore(s1, imap[]), Fetch(first.key), CachedStore(s1, blocks))
               && Readable(s2, last.key) && s2.mem.indices[last.key].loc.id == s2.active != s2.maxFile
               && View(env, s2) == View(env, s0) && last.key in View(env, s2)
               && CachedGet(env, CachedStore(s2, blocks), last.key) == (Corruption, [])
  {
    hide Inv, Compact, View, Durable, TwoFiles, TwoFilesStore, Blind, Image, Filled, CachedGet, AsOf, IsBlock, BlockIdx, Safe, Follows;
    var s0 := TwoFilesStore(env, first, filler, last);
    CrowdedStart(env, first, filler, last);
    CrowdedFirst(env, first, filler, last, s0);
    var s1 := Compact(s0, 1);
    CrowdedSecond(env, first, filler, last, s1);
    var s2 := Compact(s1, 2);
    InvReadable(env, s1, first.key);
    BlocksBehind(env, first, last, s1);
  }

  /** The second compaction leaves behind a block that was cached when the third file held one record. */
  lemma BlocksBehind(env: Env, first: Entry, last: Entry, s1: Store)
    requires Inv(env, s1) && 2 in s1.log && 2 !in s1.mem.tasks && 3 in s1.log && s1.log[3] == [first] && s1.active == 3
    requires Size(first) < BLOCK_SIZE && first.key in s1.mem.indices && s1.mem.indices[first.key] == Dir(Size(first), Location(3, 0))
    requires Readable(s1, first.key)
    requires var s2 := Compact(s1, 2);
             Inv(env, s2) && last.key in s2.mem.indices && s2.mem.indices[last.key] == Dir(Size(last), Location(3, Size(first)))
    ensures Total([first]) <= MAX_FILE_BYTES
    ensures var s2 := Compact(s1, 2);
            var blocks := BlocksAfter(imap[], Image([first]), Dir(Size(first), Location(3, 0)));
            && Readable(s2, last.key) && last.key in View(env, s2)
            && CachedGet(env, CachedStore(s2, blocks), last.key) == (Corruption, [])
  {
    hide Inv, Compact, View, Image, Filled, CachedGet, AsOf, IsBlock, BlockIdx, Follows, Size;
    var s2 := Compact(s1, 2);
    OneRecord(first);
    SizeIs(first);
    InvReadable(env, s2, last.key);
    var blocks := BlocksAfter(imap[], Image([first]), Dir(Size(first), Location(3, 0)));
    FirstBlockCached(Image([first]), Size(first));
    NothingCached(s1.log, s1.active);
    FetchKeeps(env, CachedStore(s1, imap[]), first.key, CachedStore(s1, blocks));
    CompactFollows(env, s1, 2);
    AsOfFollows(blocks, s1.log, s1.active, s2.log, s2.active);
    BehindAfter(blocks, [first], s2, last.key);
    CachedGetIs(env, CachedStore(s2, blocks), last.key);
    InView(env, s2, last.key);
  }
}

/** The block cache over whole runs of the store. A cached block is never refreshed, so it holds its
    file as it was when the block was read. That decides what every Get through the cache returns. */
module CacheRuns {
  import opened Basics
  import opened RecordFormat
  import opened RecordScan
  import opened Log
  import opened Accounting
  import opened Store
  import opened Compaction
  import opened Recovery
  import opened Runs
  import opened Blocks
  import opened BlockCache

  /** Block idx as it was when its file held only the first m of the records rs, of which the last
      reached into the block. */
  predicate BlockAt(block: Bytes, rs: seq<Entry>, idx: nat, m: nat)
  {
    && m <= |rs| && BlockOffset(idx) < Offset(rs, m) <= MAX_FILE_BYTES
    && IsBlock(block, Image(rs[..m]), idx)
  }

  ghost predicate Earlier(block: Bytes, rs: seq<Entry>, idx: nat)
  {
    exists m :: BlockAt(block, rs, idx, m)
  }

  /** Every cached block of an existing file is that block of the file as it is now or was earlier, and
      no block of a file that is still to come is cached. */
  ghost predicate AsOf(cached: imap<nat, Bytes>, log: Log, active: FileId)
  {
    forall idx :: idx in cached ==>
      BlockFile(idx) <= active && (BlockFile(idx) in log ==> Earlier(cached[idx], log[BlockFile(idx)], idx))
  }

  /** Every cached block belongs to a sealed file, and is what the file holds. */
  ghost predicate Clean(cached: imap<nat, Bytes>, log: Log, active: FileId)
  {
    forall idx :: idx in cached ==>
      BlockFile(idx) < active
      && (BlockFile(idx) in log ==>
            var rs := log[BlockFile(idx)];
            Total(rs) <= MAX_FILE_BYTES && BlockOffset(idx) < Total(rs) && IsBlock(cached[idx], Image(rs), idx))
  }

  // ---------------------------------------------------------------- bytes of a growing file

  lemma {:induction false} PackAllExtends(rs: seq<Entry>, m: nat)
    requires m <= |rs|
    ensures PackAll(rs[..m]) <= PackAll(rs)
    decreases |rs|
  {
    hide Pack, Size;
    if m < |rs| {
      PackAllExtends(rs[..|rs| - 1], m);
      assert rs[..|rs| - 1][..m] == rs[..m];
    } else {
      assert rs[..m] == rs;
    }
  }

  /** A file as it was earlier holds the same bytes up to its end then, and unwritten space behind. */
  lemma ImagePrefix(rs: seq<Entry>, m: nat, x: nat)
    requires m <= |rs| && Total(rs) <= MAX_FILE_BYTES && x < MAX_FILE_BYTES
    ensures Offset(rs, m) <= MAX_FILE_BYTES
    ensures Image(rs[..m])[x] == if x < Offset(rs, m) then Image(rs)[x] else EMPTY
  {
    hide Total;
    if m < |rs| { OffsetMonotone(rs, m, |rs|); }
    assert rs[..|rs|] == rs;
    PackAllExtends(rs, m);
  }

  lemma PackStarts(e: Entry, p: Bytes)
    requires Storable(e) && p == Pack(e)
    ensures p != [] && p[0] == e.kind != EMPTY
  {
    HeaderFields(e, e.key + e.value);
    assert PackHeader(e) + (e.key + e.value) == p;
  }

  /** A record starts with its type, which is not that of unwritten space. */
  lemma FirstByteIs(rs: seq<Entry>, i: nat)
    requires i < |rs| && Total(rs) <= MAX_FILE_BYTES && Storable(rs[i])
    ensures Offset(rs, i) < Total(rs) && Image(rs)[Offset(rs, i)] == rs[i].kind != EMPTY
  {
    var p := Pack(rs[i]);
    PackStarts(rs[i], p);
    ImageBytes(rs, i, Offset(rs, i), p);
    hide Image, Pack, Storable, Total;
    SliceStart(Image(rs), Offset(rs, i), p);
  }

  lemma SliceStart(s: Bytes, o: nat, p: Bytes)
    requires p != [] && o + |p| <= |s| && s[o..o + |p|] == p
    ensures s[o] == p[0]
  {
  }

  /** A block that was read when its file ended behind the start of record i holds the record's bytes
      as they are, unless the record's first byte is in it and was not written yet. */
  lemma EarlierBytes(rs: seq<Entry>, block: Bytes, idx: nat, i: nat, x: nat)
    requires i < |rs| && Total(rs) <= MAX_FILE_BYTES && Storable(rs[i]) && Earlier(block, rs, idx)
    requires Offset(rs, i) <= x < Offset(rs, i) + Size(rs[i]) && BlockOffset(idx) <= x < BlockOffset(idx) + BLOCK_SIZE
    requires BlockOffset(idx) <= Offset(rs, i) ==> |block| == BLOCK_SIZE && block[Offset(rs, i) - BlockOffset(idx)] != EMPTY
    ensures |block| == BLOCK_SIZE && Offset(rs, i) + Size(rs[i]) <= MAX_FILE_BYTES && block[x - BlockOffset(idx)] == Image(rs)[x]
  {
    hide Image, Storable, BlockOffset, Size, BlockAt, Total;
    var o, at := Offset(rs, i), BlockOffset(idx);
    var m: nat :| BlockAt(block, rs, idx, m);
    BlockAtIs(block, rs, idx, m);
    BlockByte(block, rs, idx, m, x);
    RecordFits(rs, i);
    if m <= i {
      PrefixEnds(rs, m, i);
      BlockByte(block, rs, idx, m, o);
      ImagePrefix(rs, m, o);
    } else {
      OffsetMonotone(rs, i, m);
      ImagePrefix(rs, m, x);
    }
  }

  lemma RecordFits(rs: seq<Entry>, i: nat)
    requires i < |rs|
    ensures Offset(rs, i) + Size(rs[i]) <= Total(rs)
  {
    OffsetMonotone(rs, i, |rs|);
    assert rs[..|rs|] == rs;
  }

  lemma PrefixEnds(rs: seq<Entry>, m: nat, i: nat)
    requires m <= i <= |rs|
    ensures Offset(rs, m) <= Offset(rs, i)
  {
    if m < i { OffsetMonotone(rs, m, i); }
  }

  lemma BlockAtIs(block: Bytes, rs: seq<Entry>, idx: nat, m: nat)
    requires BlockAt(block, rs, idx, m)
    ensures m <= |rs| && BlockOffset(idx) < Offset(rs, m) <= MAX_FILE_BYTES
  {
  }

  lemma BlockByte(block: Bytes, rs: seq<Entry>, idx: nat, m: nat, x: nat)
    requires BlockAt(block, rs, idx, m)
    ensures |block| == BLOCK_SIZE && BlockOffset(idx) + BLOCK_SIZE <= MAX_FILE_BYTES
    ensures BlockOffset(idx) <= x < BlockOffset(idx) + BLOCK_SIZE ==> block[x - BlockOffset(idx)] == Image(rs[..m])[x]
  {
    hide Image, BlockOffset;
  }

  // ---------------------------------------------------------------- what keeps the cache as it is

  /** Files grow only from the active one on; some may go. */
  ghost predicate Follows(a: Log, active: FileId, b: Log, active': FileId)
  {
    && active <= active'
    && forall g :: g in b ==> g > active || (g in a && a[g] <= b[g] && (g < active ==> a[g] == b[g]))
  }

  lemma EarlierGrows(block: Bytes, rs: seq<Entry>, rs': seq<Entry>, idx: nat)
    requires Earlier(block, rs, idx) && rs <= rs'
    ensures Earlier(block, rs', idx)
  {
    hide BlockOffset, IsBlock, Image;
    var m: nat :| BlockAt(block, rs, idx, m);
    assert rs'[..m] == rs[..m];
    assert BlockAt(block, rs', idx, m);
  }

  lemma AsOfFollows(cached: imap<nat, Bytes>, a: Log, active: FileId, b: Log, active': FileId)
    requires AsOf(cached, a, active) && Follows(a, active, b, active')
    ensures AsOf(cached, b, active')
  {
    hide Earlier, BlockFile;
    forall idx | idx in cached && BlockFile(idx) in b ensures Earlier(cached[idx], b[BlockFile(idx)], idx) {
      EarlierGrows(cached[idx], a[BlockFile(idx)], b[BlockFile(idx)], idx);
    }
  }

  lemma CleanFollows(cached: imap<nat, Bytes>, a: Log, active: FileId, b: Log, active': FileId)
    requires Clean(cached, a, active) && Follows(a, active, b, active')
    ensures Clean(cached, b, active')
  {
    hide IsBlock, BlockFile, BlockOffset, Image, Total;
  }

  /** Blocks of file `id` have been added that are what the file holds, up to its last record. */
  ghost predicate Added(before: imap<nat, Bytes>, after: imap<nat, Bytes>, id: FileId, rs: seq<Entry>)
  {
    && Total(rs) <= MAX_FILE_BYTES
    && forall idx :: idx in after ==>
         (idx in before && after[idx] == before[idx])
         || (BlockFile(idx) == id && BlockOffset(idx) < Total(rs) && IsBlock(after[idx], Image(rs), idx))
  }

  lemma AsOfAdded(before: imap<nat, Bytes>, after: imap<nat, Bytes>, log: Log, active: FileId, id: FileId)
    requires AsOf(before, log, active) && id in log && id <= active && Added(before, after, id, log[id])
    ensures AsOf(after, log, active)
  {
    hide Earlier, BlockFile, BlockOffset, IsBlock, Image, Total;
    forall idx | idx in after && !(idx in before && after[idx] == before[idx]) ensures Earlier(after[idx], log[id], idx) {
      NowIsEarlier(after[idx], log[id], idx);
    }
  }

  lemma CleanAdded(before: imap<nat, Bytes>, after: imap<nat, Bytes>, log: Log, active: FileId, id: FileId)
    requires Clean(before, log, active) && id in log && id < active && Added(before, after, id, log[id])
    ensures Clean(after, log, active)
  {
    hide BlockFile, BlockOffset, IsBlock, Image, Total;
  }

  lemma NowIsEarlier(block: Bytes, rs: seq<Entry>, idx: nat)
    requires Total(rs) <= MAX_FILE_BYTES && BlockOffset(idx) < Total(rs) && IsBlock(block, Image(rs), idx)
    ensures Earlier(block, rs, idx)
  {
    hide BlockOffset, IsBlock, Image;
    assert rs[..|rs|] == rs;
    assert BlockAt(block, rs, idx, |rs|);
  }

  /** A clean cache is in particular as of some time. */
  lemma CleanIsAsOf(cached: imap<nat, Bytes>, log: Log, active: FileId)
    requires Clean(cached, log, active)
    ensures AsOf(cached, log, active)
  {
    hide Earlier, BlockFile, BlockOffset, IsBlock, Image, Total;
    forall idx | idx in cached && BlockFile(idx) in log ensures Earlier(cached[idx], log[BlockFile(idx)], idx) {
      NowIsEarlier(cached[idx], log[BlockFile(idx)], idx);
    }
  }

  lemma PutFollows(env: Env, s: Store, key: Bytes, value: Bytes)
    requires Inv(env, s)
    ensures var s' := Put(env, s, key, value).1; Follows(s.log, s.active, s'.log, s'.active)
  {
    hide Publish, PublishUncharged, MemOk, Genuine, Total;
  }

  lemma CompactFollows(env: Env, s: Store, f: FileId)
    requires Inv(env, s) && f in s.log && f !in s.mem.tasks
    ensures var s' := Compact(s, f); Follows(s.log, s.active, s'.log, s'.active)
  {
    hide Copied, Inv, MovedBelow, View;
    CopiedKeeps(env, s, f);
  }

  lemma ChangeFollows(env: Env, s: Store, op: Op, durable: bool)
    requires Inv(env, s) && Allowed(env, s, op, durable) && !op.DoReopen?
    ensures var s' := Apply(env, s, op); Follows(s.log, s.active, s'.log, s'.active)
  {
    hide Inv, Put, Compact, Follows, Safe;
    match op
    case DoPut(key, value) => PutFollows(env, s, key, value);
    case DoDelete(key) => PutFollows(env, s, key, []);
    case DoCompact(f) => if f in s.log { CompactFollows(env, s, f); } else { NotThere(s, f); SameFollows(s, Compact(s, f)); }
    case DoPoll => SameFollows(s, Apply(env, s, op));
    case WriteIndexFile(f) => SameFollows(s, Apply(env, s, op));
  }

  lemma NotThere(s: Store, f: FileId)
    requires f !in s.log
    ensures Compact(s, f) == s
  {
  }

  lemma SameFollows(s: Store, s': Store)
    requires s'.log == s.log && s'.active == s.active
    ensures Follows(s.log, s.active, s'.log, s'.active)
  {
  }

  // ---------------------------------------------------------------- one Get

  /** The store, and the blocks its cache holds. */
  datatype CachedStore = CachedStore(store: Store, blocks: imap<nat, Bytes>)

  /** The index has the key and points inside a file that exists. */
  predicate Readable(s: Store, key: Bytes)
  {
    && key in s.mem.indices
    && var d := s.mem.indices[key];
       && d.loc.id in s.log && Total(s.log[d.loc.id]) <= MAX_FILE_BYTES
       && 0 < d.entrySize && d.loc.offset + d.entrySize <= MAX_FILE_BYTES
  }

  /** What a Get of the key that goes through the cache returns. */
  ghost function CachedGet(env: Env, a: CachedStore, key: Bytes): (r: (Status, Bytes))
    requires Readable(a.store, key)
  {
    var d := a.store.mem.indices[key];
    CachedRead(env, RecordBytes(Served(a.blocks, d.loc.id, Image(a.store.log[d.loc.id])), d))
  }

  /** The blocks that such a Get leaves in a cache with capacity. */
  ghost function BlocksAfter(blocks: imap<nat, Bytes>, file: Bytes, d: Dir): (after: imap<nat, Bytes>)
    requires 0 < d.entrySize
  {
    Filled(blocks, file, BlockIdx(d.loc.id, d.loc.offset), BlockIdx(d.loc.id, d.loc.offset + d.entrySize - 1) + 1)
  }

  /** The block of the first byte of the key's record is cached, and does not have the record: where
      the record starts, it holds unwritten space. */
  ghost predicate Behind(a: CachedStore, key: Bytes)
    requires key in a.store.mem.indices
  {
    var loc := a.store.mem.indices[key].loc;
    var idx := BlockIdx(loc.id, loc.offset);
    && idx in a.blocks && BlockOffset(idx) <= loc.offset < BlockOffset(idx) + |a.blocks[idx]|
    && a.blocks[idx][loc.offset - BlockOffset(idx)] == EMPTY
  }

  lemma InvReadable(env: Env, s: Store, key: Bytes)
    requires Inv(env, s) && key in s.mem.indices
    ensures Readable(s, key)
  {
    GetReturnsView(env, s, key);
    var i := EntryInFile(s.log, key, s.mem.indices[key]);
  }

  /** The record that an index entry points to. */
  lemma RecordOf(env: Env, s: Store, key: Bytes) returns (i: nat)
    requires Inv(env, s) && key in s.mem.indices
    ensures var d := s.mem.indices[key];
            && d.loc.id in s.log && d.loc.id <= s.active && i < |s.log[d.loc.id]| && Storable(s.log[d.loc.id][i])
            && Total(s.log[d.loc.id]) <= MAX_FILE_BYTES
            && d.loc.offset == Offset(s.log[d.loc.id], i) && d.entrySize == Size(s.log[d.loc.id][i])
            && d.loc.offset + d.entrySize <= Total(s.log[d.loc.id])
  {
    var d := s.mem.indices[key];
    i := EntryInFile(s.log, key, d);
    RecordGenuine(env, s, d.loc.id, i);
    EndsInFile(s.log, key, d);
  }

  lemma EmptyStart(env: Env, bytes: Bytes)
    requires bytes != [] && bytes[0] == EMPTY
    ensures CachedRead(env, bytes) == (Corruption, [])
  {
  }

  lemma FirstByte(file: Bytes, d: Dir)
    requires 0 < d.entrySize && d.loc.offset + d.entrySize <= |file|
    ensures RecordBytes(file, d) != [] && RecordBytes(file, d)[0] == file[d.loc.offset]
  {
  }

  /** A block that is behind serves unwritten space where the record starts. */
  lemma BehindServes(cached: imap<nat, Bytes>, id: nat, file: Bytes, x: nat)
    requires x < |file|
    requires var idx := BlockIdx(id, x);
             idx in cached && BlockOffset(idx) <= x < BlockOffset(idx) + |cached[idx]| && cached[idx][x - BlockOffset(idx)] == EMPTY
    ensures Served(cached, id, file)[x] == EMPTY
  {
    assert ByteServed(cached, id, file, x) == EMPTY;
  }

  /** Otherwise every byte of the record is served as it is. */
  lemma RecordServed(cached: imap<nat, Bytes>, log: Log, active: FileId, id: FileId, i: nat, x: nat)
    requires AsOf(cached, log, active) && id in log && i < |log[id]| && Total(log[id]) <= MAX_FILE_BYTES && Storable(log[id][i])
    requires Offset(log[id], i) <= x < Offset(log[id], i) + Size(log[id][i]) <= MAX_FILE_BYTES
    requires var o := Offset(log[id], i);
             var first := BlockIdx(id, o);
             !(first in cached && BlockOffset(first) <= o < BlockOffset(first) + |cached[first]|
               && cached[first][o - BlockOffset(first)] == EMPTY)
    ensures ByteServed(cached, id, Image(log[id]), x) == Image(log[id])[x]
  {
    hide BlockIdx, BlockOffset, BlockFile, Image, AsOf, Earlier, Storable, Total, Size;
    var o := Offset(log[id], i);
    var idx := BlockIdx(id, x);
    StartsInFile(id, x);
    if idx in cached && BlockOffset(idx) <= x < BlockOffset(idx) + |cached[idx]| {
      AsOfAt(cached, log, active, idx);
      EarlierSize(cached[idx], log[id], idx);
      if BlockOffset(idx) <= o { BlockOfByte(idx, o); }
      EarlierBytes(log[id], cached[idx], idx, i, x);
    }
  }

  lemma AsOfAt(cached: imap<nat, Bytes>, log: Log, active: FileId, idx: nat)
    requires AsOf(cached, log, active) && idx in cached && BlockFile(idx) in log
    ensures Earlier(cached[idx], log[BlockFile(idx)], idx)
  {
    hide BlockFile, Earlier;
  }

  lemma EarlierSize(block: Bytes, rs: seq<Entry>, idx: nat)
    requires Earlier(block, rs, idx)
    ensures |block| == BLOCK_SIZE
  {
    var m: nat :| BlockAt(block, rs, idx, m);
    BlockByte(block, rs, idx, m, 0);
  }

  lemma SameRecordBytes(a: Bytes, b: Bytes, d: Dir)
    requires |a| == |b| && d.loc.offset + d.entrySize <= |a|
    requires forall x :: d.loc.offset <= x < d.loc.offset + d.entrySize ==> a[x] == b[x]
    ensures RecordBytes(a, d) == RecordBytes(b, d)
  {
  }

  lemma NotBehindServes(env: Env, a: CachedStore, key: Bytes)
    requires Inv(env, a.store) && AsOf(a.blocks, a.store.log, a.store.active) && key in a.store.mem.indices && !Behind(a, key)
    ensures Readable(a.store, key)
    ensures var d := a.store.mem.indices[key];
            var file := Image(a.store.log[d.loc.id]);
            RecordBytes(Served(a.blocks, d.loc.id, file), d) == RecordBytes(file, d)
  {
    hide Inv, Image, AsOf, BlockIdx, BlockOffset, RecordBytes;
    InvReadable(env, a.store, key);
    var d := a.store.mem.indices[key];
    var i := RecordOf(env, a.store, key);
    var file := Image(a.store.log[d.loc.id]);
    var served := Served(a.blocks, d.loc.id, file);
    forall x | d.loc.offset <= x < d.loc.offset + d.entrySize ensures served[x] == file[x] {
      RecordServed(a.blocks, a.store.log, a.store.active, d.loc.id, i, x);
      assert served[x] == ByteServed(a.blocks, d.loc.id, file, x);
    }
    SameRecordBytes(served, file, d);
  }

  /** What a Get through the cache returns, for every key of the map: an error if the block of the
      record's first byte was cached before the record was written, and otherwise the map's value.
      Blocks behind the first never matter: they were cached after the record had been written. */
  lemma CachedGetIs(env: Env, a: CachedStore, key: Bytes)
    requires Inv(env, a.store) && AsOf(a.blocks, a.store.log, a.store.active) && key in a.store.mem.indices
    ensures Readable(a.store, key)
    ensures CachedGet(env, a, key) == if Behind(a, key) then (Corruption, []) else (Ok, View(env, a.store)[key])
  {
    hide Inv, Image, AsOf, BlockIdx, BlockOffset, RecordBytes, CachedRead, View, Served, DirectRead;
    InvReadable(env, a.store, key);
    var d := a.store.mem.indices[key];
    var file := Image(a.store.log[d.loc.id]);
    if Behind(a, key) {
      BehindServes(a.blocks, d.loc.id, file, d.loc.offset);
      FirstByte(Served(a.blocks, d.loc.id, file), d);
      EmptyStart(env, RecordBytes(Served(a.blocks, d.loc.id, file), d));
    } else {
      NotBehindServes(env, a, key);
      GetReturnsView(env, a.store, key);
    }
  }

  /** A Get adds the blocks of its record, as its file holds them now. */
  lemma BlocksAdded(env: Env, a: CachedStore, key: Bytes)
    requires Inv(env, a.store) && key in a.store.mem.indices
    ensures Readable(a.store, key) && a.store.mem.indices[key].loc.id <= a.store.active
    ensures var d := a.store.mem.indices[key];
            var rs := a.store.log[d.loc.id];
            Added(a.blocks, BlocksAfter(a.blocks, Image(rs), d), d.loc.id, rs)
  {
    hide Inv, Image, BlockIdx, BlockOffset, BlockFile, Storable;
    InvReadable(env, a.store, key);
    var d := a.store.mem.indices[key];
    var i := RecordOf(env, a.store, key);
    var rs := a.store.log[d.loc.id];
    var end := d.loc.offset + d.entrySize;
    BlocksOfRead(d.loc.id, d.loc.offset, end, MAX_FILE_BYTES);
    forall idx | BlockIdx(d.loc.id, d.loc.offset) <= idx < BlockIdx(d.loc.id, end - 1) + 1 ensures BlockOffset(idx) < end {
      BlockStarts(d.loc.id, d.loc.offset, end, idx);
    }
  }

  /** The blocks of a read start before its end. */
  lemma BlockStarts(file: nat, begin: nat, end: nat, idx: nat)
    requires begin < end <= TWO_32 && BlockIdx(file, begin) <= idx <= BlockIdx(file, end - 1)
    ensures BlockOffset(idx) < end
  {
    BlockOf(file, begin, idx - BlockIdx(file, begin));
  }

  /** A Get caches blocks as of now, of a sealed file or of the active one. */
  lemma FetchKeeps(env: Env, a: CachedStore, key: Bytes, b: CachedStore)
    requires Inv(env, a.store) && Accessed(env, a, Fetch(key), b)
    ensures AsOf(a.blocks, a.store.log, a.store.active) ==> AsOf(b.blocks, b.store.log, b.store.active)
    ensures Clean(a.blocks, a.store.log, a.store.active) && a.store.mem.indices[key].loc.id < a.store.active ==>
              Clean(b.blocks, b.store.log, b.store.active)
  {
    hide AsOf, Clean, Inv, Image, Added, BlocksAfter;
    BlocksAdded(env, a, key);
    var d := a.store.mem.indices[key];
    if b.blocks != a.blocks {
      if AsOf(a.blocks, a.store.log, a.store.active) {
        AsOfAdded(a.blocks, b.blocks, a.store.log, a.store.active, d.loc.id);
      }
      if Clean(a.blocks, a.store.log, a.store.active) && d.loc.id < a.store.active {
        CleanAdded(a.blocks, b.blocks, a.store.log, a.store.active, d.loc.id);
      }
    }
  }

  lemma BlockByteIs(block: Bytes, file: Bytes, idx: nat, x: nat)
    requires IsBlock(block, file, idx) && BlockOffset(idx) <= x < BlockOffset(idx) + |block|
    ensures x < |file| && block[x - BlockOffset(idx)] == file[x]
  {
    hide BlockOffset;
  }

  /** A Get through the cache that leads from a to b and returns r: r is what the cached blocks hold, and
      if they are as of some time, it is the map's value unless the record's first block is behind. They
      stay as of some time, and clean unless the record lies in the active file. If the cache has room,
      the blocks of the record are cached. */
  ghost predicate Fetches(env: Env, room: bool, a: CachedStore, key: Bytes, b: CachedStore, r: (Status, Bytes))
    requires key in a.store.mem.indices
  {
    && Accessed(env, a, Fetch(key), b) && r == CachedGet(env, a, key)
    && (var d := a.store.mem.indices[key];
        b.blocks == if room then BlocksAfter(a.blocks, Image(a.store.log[d.loc.id]), d) else a.blocks)
    && (AsOf(a.blocks, a.store.log, a.store.active) ==>
          && r == (if Behind(a, key) then (Corruption, []) else (Ok, View(env, a.store)[key]))
          && AsOf(b.blocks, b.store.log, b.store.active))
    && (Clean(a.blocks, a.store.log, a.store.active) && Sealed(a, Fetch(key)) ==> Clean(b.blocks, b.store.log, b.store.active))
  }

  lemma FetchIs(env: Env, room: bool, a: CachedStore, key: Bytes, b: CachedStore)
    requires Inv(env, a.store) && Accessed(env, a, Fetch(key), b)
    requires var d := a.store.mem.indices[key];
             b.blocks == if room then BlocksAfter(a.blocks, Image(a.store.log[d.loc.id]), d) else a.blocks
    ensures Fetches(env, room, a, key, b, CachedGet(env, a, key))
  {
    hide Inv, AsOf, Clean, Behind, Image, BlocksAfter, CachedGet, View;
    FetchKeeps(env, a, key, b);
    if AsOf(a.blocks, a.store.log, a.store.active) { CachedGetIs(env, a, key); }
  }

  /** The blocks of a record are cached after it has been read with room in the cache, and those that
      were cached before stay as they are. */
  lemma BlocksStay(env: Env, a: CachedStore, key: Bytes, x: nat)
    requires Readable(a.store, key)
    requires a.store.mem.indices[key].loc.offset <= x < a.store.mem.indices[key].loc.offset + a.store.mem.indices[key].entrySize
    ensures var d := a.store.mem.indices[key];
            var after := BlocksAfter(a.blocks, Image(a.store.log[d.loc.id]), d);
            && BlockIdx(d.loc.id, x) in after
            && forall idx :: idx in a.blocks ==> idx in after && after[idx] == a.blocks[idx]
  {
    hide Image, ReadBlock;
    var d := a.store.mem.indices[key];
    BlocksAscend(d.loc.id, d.loc.offset, x);
    BlocksAscend(d.loc.id, x, d.loc.offset + d.entrySize - 1);
  }

  lemma BlocksAscend(file: nat, x: nat, y: nat)
    requires x <= y
    ensures BlockIdx(file, x) <= BlockIdx(file, y)
  {
  }

  /** Blocks of a clean cache are not behind. */
  lemma CleanIsNotBehind(env: Env, a: CachedStore, key: Bytes)
    requires Inv(env, a.store) && Clean(a.blocks, a.store.log, a.store.active) && key in a.store.mem.indices
    ensures !Behind(a, key)
  {
    hide Inv, Image, BlockIdx, BlockOffset, BlockFile, Storable, Total;
    var loc := a.store.mem.indices[key].loc;
    var i := RecordOf(env, a.store, key);
    FirstByteIs(a.store.log[loc.id], i);
    StartsInFile(loc.id, loc.offset);
    var idx := BlockIdx(loc.id, loc.offset);
    if Behind(a, key) {
      BlockByteIs(a.blocks[idx], Image(a.store.log[loc.id]), idx, loc.offset);
    }
  }

  lemma StartsInFile(file: nat, offset: nat)
    requires offset < TWO_32
    ensures BlockFile(BlockIdx(file, offset)) == file
  {
    BlockOf(file, offset, 0);
  }

  // ---------------------------------------------------------------- runs

  /** An operation on the store, or a Get that goes past the bypass into the cache. */
  datatype Access = Change(op: Op) | Fetch(key: Bytes)

  /** A Get through the cache caches the blocks it reads, if the cache has capacity. Any other
      operation leaves the cache alone, but a reopened store starts with an empty one. */
  ghost predicate Accessed(env: Env, a: CachedStore, access: Access, b: CachedStore)
  {
    match access
    case Change(op) => b.store == Apply(env, a.store, op) && b.blocks == if op.DoReopen? then imap[] else a.blocks
    case Fetch(key) =>
      && b.store == a.store && Readable(a.store, key)
      && var d := a.store.mem.indices[key];
         b.blocks == a.blocks || b.blocks == BlocksAfter(a.blocks, Image(a.store.log[d.loc.id]), d)
  }

  /** The access is allowed: a store operation as in Runs, and a Get of any key. */
  ghost predicate Permitted(env: Env, a: CachedStore, access: Access, durable: bool)
  {
    match access
    case Change(op) => Allowed(env, a.store, op, durable)
    case Fetch(key) => key in a.store.mem.indices
  }

  /** The access does not read the active file through the cache. */
  predicate Sealed(a: CachedStore, access: Access)
  {
    access.Fetch? && access.key in a.store.mem.indices ==> a.store.mem.indices[access.key].loc.id < a.store.active
  }

  ghost predicate CachedInv(env: Env, a: CachedStore, durable: bool)
  {
    Inv(env, a.store) && (durable ==> Durable(a.store)) && AsOf(a.blocks, a.store.log, a.store.active)
  }

  lemma ChangeKeepsCache(env: Env, a: CachedStore, op: Op, durable: bool)
    requires Inv(env, a.store) && Allowed(env, a.store, op, durable)
    ensures var s', blocks := Apply(env, a.store, op), if op.DoReopen? then imap[] else a.blocks;
            && (AsOf(a.blocks, a.store.log, a.store.active) ==> AsOf(blocks, s'.log, s'.active))
            && (Clean(a.blocks, a.store.log, a.store.active) ==> Clean(blocks, s'.log, s'.active))
  {
    var s' := Apply(env, a.store, op);
    if op.DoReopen? {
      hide Apply, Allowed, Inv;
    } else {
      hide AsOf, Clean, Inv, Apply, Allowed, Follows;
      ChangeFollows(env, a.store, op, durable);
      if AsOf(a.blocks, a.store.log, a.store.active) { AsOfFollows(a.blocks, a.store.log, a.store.active, s'.log, s'.active); }
      if Clean(a.blocks, a.store.log, a.store.active) { CleanFollows(a.blocks, a.store.log, a.store.active, s'.log, s'.active); }
    }
  }

  /** Every access keeps the cached blocks as of some time, whatever file a Get reads; and does to the
      store's contents what it does to a map. */
  lemma AccessKeeps(env: Env, a: CachedStore, access: Access, b: CachedStore, durable: bool)
    requires CachedInv(env, a, durable) && env.Lossless() && Permitted(env, a, access, durable) && Accessed(env, a, access, b)
    ensures CachedInv(env, b, durable)
    ensures View(env, b.store) == if access.Change? then MapStep(env, View(env, a.store), access.op) else View(env, a.store)
    ensures Clean(a.blocks, a.store.log, a.store.active) && Sealed(a, access) ==> Clean(b.blocks, b.store.log, b.store.active)
  {
    hide AsOf, Clean, Durable, Inv, Apply, Allowed, View, MapStep, Image, BlocksAfter;
    match access
    case Change(op) =>
      ChangeKeepsCache(env, a, op, durable);
      StepRefinesMap(env, a.store, op, durable);
    case Fetch(key) => FetchKeeps(env, a, key, b);
  }

  /** The states that a sequence of accesses goes through. */
  ghost predicate Trace(env: Env, states: seq<CachedStore>, accesses: seq<Access>, durable: bool)
  {
    && |states| == |accesses| + 1
    && forall i :: 0 <= i < |accesses| ==> Permitted(env, states[i], accesses[i], durable) && Accessed(env, states[i], accesses[i], states[i + 1])
  }

  /** What the first n accesses make of a map. */
  function MapAfter(env: Env, m: map<Bytes, Bytes>, accesses: seq<Access>, n: nat): (m': map<Bytes, Bytes>)
    requires n <= |accesses|
  {
    if n == 0 then m
    else if accesses[n - 1].Change? then MapStep(env, MapAfter(env, m, accesses, n - 1), accesses[n - 1].op)
    else MapAfter(env, m, accesses, n - 1)
  }

  lemma {:induction false} TraceKeeps(env: Env, states: seq<CachedStore>, accesses: seq<Access>, durable: bool, n: nat)
    requires env.Lossless() && Trace(env, states, accesses, durable) && CachedInv(env, states[0], durable) && n < |states|
    ensures CachedInv(env, states[n], durable)
    ensures View(env, states[n].store) == MapAfter(env, View(env, states[0].store), accesses, n)
  {
    hide CachedInv, Permitted, Accessed, View, MapStep, Clean, Sealed;
    if n > 0 {
      TraceKeeps(env, states, accesses, durable, n - 1);
      AccessKeeps(env, states[n - 1], accesses[n - 1], states[n], durable);
    }
  }

  /** In every run, whatever is written, compacted, reopened and read through the cache before: a Get
      through the cache of a key that the map has returns an error if the block where its record starts
      was cached before the record was written, and otherwise the value that the Puts and Deletes alone
      would leave. */
  lemma CachedGetInRun(env: Env, states: seq<CachedStore>, accesses: seq<Access>, durable: bool, n: nat, key: Bytes)
    requires env.Lossless() && Trace(env, states, accesses, durable) && CachedInv(env, states[0], durable) && n < |states|
    ensures var m := MapAfter(env, View(env, states[0].store), accesses, n);
            && (key in states[n].store.mem.indices <==> key in m)
            && (key in m ==>
                  && Readable(states[n].store, key)
                  && CachedGet(env, states[n], key) == if Behind(states[n], key) then (Corruption, []) else (Ok, m[key]))
  {
    hide Inv, Durable, AsOf, Trace, CachedGet, Contents, Readable, MapAfter, Behind;
    TraceKeeps(env, states, accesses, durable, n);
    ViewKeys(env, states[n].store);
    if key in states[n].store.mem.indices { CachedGetIs(env, states[n], key); }
  }

  lemma ViewKeys(env: Env, s: Store)
    ensures View(env, s).Keys == s.mem.indices.Keys
  {
  }

  lemma {:induction false} TraceKeepsClean(env: Env, states: seq<CachedStore>, accesses: seq<Access>, durable: bool, n: nat)
    requires env.Lossless() && Trace(env, states, accesses, durable) && CachedInv(env, states[0], durable) && n < |states|
    requires Clean(states[0].blocks, states[0].store.log, states[0].store.active)
    requires forall i :: 0 <= i < n ==> Sealed(states[i], accesses[i])
    ensures Clean(states[n].blocks, states[n].store.log, states[n].store.active)
  {
    hide CachedInv, Permitted, Accessed, View, MapStep, Clean, Sealed, MapAfter;
    if n > 0 {
      TraceKeepsClean(env, states, accesses, durable, n - 1);
      TraceKeeps(env, states, accesses, durable, n - 1);
      AccessKeeps(env, states[n - 1], accesses[n - 1], states[n], durable);
    }
  }

  /** The cache is transparent in every run in which the Gets before this one read only sealed files
      through it: this one, of any file, returns the value that the map has for the key. So does the
      direct path, except of a record that ends at the end of its file. */
  lemma CacheIsTransparent(env: Env, states: seq<CachedStore>, accesses: seq<Access>, durable: bool, n: nat, key: Bytes)
    requires env.Lossless() && Trace(env, states, accesses, durable) && n < |states|
    requires Inv(env, states[0].store) && (durable ==> Durable(states[0].store))
    requires Clean(states[0].blocks, states[0].store.log, states[0].store.active)
    requires forall i :: 0 <= i < n ==> Sealed(states[i], accesses[i])
    requires key in states[n].store.mem.indices
    ensures var s := states[n].store;
            && Readable(s, key)
            && CachedGet(env, states[n], key) == (Ok, View(env, s)[key])
            && var d := s.mem.indices[key];
               var direct := DirectRead(env, Image(s.log[d.loc.id]), d);
               if d.loc.offset + d.entrySize < MAX_FILE_BYTES then CachedGet(env, states[n], key) == direct
               else direct == (Corruption, [])
  {
    hide Inv, Durable, Image, AsOf, Clean, Trace, CachedRead, DirectRead, View, RecordBytes, Served, Behind, Sealed, MapAfter;
    CleanIsAsOf(states[0].blocks, states[0].store.log, states[0].store.active);
    TraceKeeps(env, states, accesses, durable, n);
    TraceKeepsClean(env, states, accesses, durable, n);
    CleanIsNotBehind(env, states[n], key);
    CachedGetIs(env, states[n], key);
    GetReturnsView(env, states[n].store, key);
  }

  lemma NothingCached(log: Log, active: FileId)
    ensures AsOf(imap[], log, active) && Clean(imap[], log, active)
  {
  }

  // ---------------------------------------------------------------- sessions

  /** What a caller asks for. */
  datatype Request = Do(op: Op) | Get(key: Bytes, useReadCache: bool)

  /** A Get that leads from a to b and returns r, in a database whose cache is enabled or not, and has
      room or not: the active file is read directly, and so are all files if the caller or the
      database does not use the cache. */
  ghost predicate Answers(env: Env, enabled: bool, room: bool, a: CachedStore, key: Bytes, useReadCache: bool,
                          b: CachedStore, r: (Status, Bytes))
  {
    && b.store == a.store
    && if key !in a.store.mem.indices then r == (NotFound, []) && b.blocks == a.blocks
       else
         var d := a.store.mem.indices[key];
         && Readable(a.store, key)
         && if !useReadCache || !enabled || d.loc.id == a.store.maxFile
            then r == DirectRead(env, Image(a.store.log[d.loc.id]), d) && b.blocks == a.blocks
            else Fetches(env, room, a, key, b, r)
  }

  /** What every Get returns: the map's value, except that the direct path does not see a record that
      ends at the end of its file, and the cached path not one whose first block is behind. */
  lemma AnswerIs(env: Env, enabled: bool, room: bool, a: CachedStore, key: Bytes, useReadCache: bool,
                 b: CachedStore, r: (Status, Bytes))
    requires Inv(env, a.store) && AsOf(a.blocks, a.store.log, a.store.active)
    requires Answers(env, enabled, room, a, key, useReadCache, b, r)
    ensures key !in a.store.mem.indices ==> r == (NotFound, [])
    ensures key in a.store.mem.indices ==>
              var d := a.store.mem.indices[key];
              var missed := if !useReadCache || !enabled || d.loc.id == a.store.maxFile
                            then d.loc.offset + d.entrySize == MAX_FILE_BYTES else Behind(a, key);
              r == if missed then (Corruption, []) else (Ok, View(env, a.store)[key])
    ensures AsOf(b.blocks, b.store.log, b.store.active)
  {
    hide Inv, AsOf, Clean, Behind, Image, View, DirectRead, CachedRead, RecordBytes, Accessed;
    if key in a.store.mem.indices { GetReturnsView(env, a.store, key); }
  }

  /** As long as the bypass names the active file and the cache is clean, a Get keeps the cache clean,
      and fails only for a record that ends at the end of its file. */
  lemma CleanAnswer(env: Env, enabled: bool, room: bool, a: CachedStore, key: Bytes, useReadCache: bool,
                    b: CachedStore, r: (Status, Bytes))
    requires Inv(env, a.store) && Clean(a.blocks, a.store.log, a.store.active) && a.store.maxFile == a.store.active
    requires Answers(env, enabled, room, a, key, useReadCache, b, r)
    ensures Clean(b.blocks, b.store.log, b.store.active)
    ensures key !in a.store.mem.indices ==> r == (NotFound, [])
    ensures key in a.store.mem.indices ==>
              var d := a.store.mem.indices[key];
              r == (Ok, View(env, a.store)[key]) || (d.loc.offset + d.entrySize == MAX_FILE_BYTES && r == (Corruption, []))
  {
    hide Inv, AsOf, Clean, Behind, Image, View, DirectRead, Accessed, Fetches;
    CleanIsAsOf(a.blocks, a.store.log, a.store.active);
    AnswerIs(env, enabled, room, a, key, useReadCache, b, r);
    if key in a.store.mem.indices {
      CleanIsNotBehind(env, a, key);
      var i := RecordOf(env, a.store, key);
      if useReadCache && enabled && a.store.mem.indices[key].loc.id != a.store.maxFile {
        FetchCleans(env, room, a, key, b, r);
      }
    }
  }

  lemma FetchCleans(env: Env, room: bool, a: CachedStore, key: Bytes, b: CachedStore, r: (Status, Bytes))
    requires key in a.store.mem.indices && Fetches(env, room, a, key, b, r)
    requires Clean(a.blocks, a.store.log, a.store.active) && a.store.mem.indices[key].loc.id < a.store.active
    ensures Clean(b.blocks, b.store.log, b.store.active)
  {
    hide Clean, AsOf, Behind, Accessed, Image, BlocksAfter;
  }

  /** The states that requests lead through, and what the Gets return. */
  ghost predicate Session(env: Env, enabled: bool, room: bool, states: seq<CachedStore>, requests: seq<Request>,
                          answers: seq<(Status, Bytes)>, durable: bool)
  {
    && |states| == |requests| + 1 && |answers| == |requests|
    && forall i :: 0 <= i < |requests| ==> Responds(env, enabled, room, states[i], requests[i], states[i + 1], answers[i], durable)
  }

  ghost predicate Responds(env: Env, enabled: bool, room: bool, a: CachedStore, request: Request, b: CachedStore,
                          r: (Status, Bytes), durable: bool)
  {
    match request
    case Do(op) => Allowed(env, a.store, op, durable) && Accessed(env, a, Change(op), b)
    case Get(key, useReadCache) => Answers(env, enabled, room, a, key, useReadCache, b, r)
  }

  /** What the first n requests make of a map. */
  function MapOf(env: Env, m: map<Bytes, Bytes>, requests: seq<Request>, n: nat): (m': map<Bytes, Bytes>)
    requires n <= |requests|
  {
    if n == 0 then m
    else if requests[n - 1].Do? then MapStep(env, MapOf(env, m, requests, n - 1), requests[n - 1].op)
    else MapOf(env, m, requests, n - 1)
  }

  lemma RequestKeeps(env: Env, enabled: bool, room: bool, a: CachedStore, request: Request, b: CachedStore,
                     r: (Status, Bytes), durable: bool)
    requires CachedInv(env, a, durable) && env.Lossless() && Responds(env, enabled, room, a, request, b, r, durable)
    ensures CachedInv(env, b, durable)
    ensures View(env, b.store) == if request.Do? then MapStep(env, View(env, a.store), request.op) else View(env, a.store)
  {
    hide AsOf, Clean, Durable, Inv, Allowed, View, MapStep, Answers, Accessed;
    match request
    case Do(op) => AccessKeeps(env, a, Change(op), b, durable);
    case Get(key, useReadCache) =>
      AnswerIs(env, enabled, room, a, key, useReadCache, b, r);
      AnswerKeepsStore(env, enabled, room, a, key, useReadCache, b, r);
  }

  lemma AnswerKeepsStore(env: Env, enabled: bool, room: bool, a: CachedStore, key: Bytes, useReadCache: bool,
                         b: CachedStore, r: (Status, Bytes))
    requires Answers(env, enabled, room, a, key, useReadCache, b, r)
    ensures b.store == a.store
  {
  }

  lemma {:induction false} SessionKeeps(env: Env, enabled: bool, room: bool, states: seq<CachedStore>, requests: seq<Request>,
                                        answers: seq<(Status, Bytes)>, durable: bool, n: nat)
    requires env.Lossless() && Session(env, enabled, room, states, requests, answers, durable)
    requires CachedInv(env, states[0], durable) && n < |states|
    ensures CachedInv(env, states[n], durable)
    ensures View(env, states[n].store) == MapOf(env, View(env, states[0].store), requests, n)
  {
    hide CachedInv, Responds, View, MapStep;
    if n > 0 {
      SessionKeeps(env, enabled, room, states, requests, answers, durable, n - 1);
      RequestKeeps(env, enabled, room, states[n - 1], requests[n - 1], states[n], answers[n - 1], durable);
    }
  }

  /** What every Get of every session returns, whatever was written, compacted, reopened and read before. */
  lemma GetInSession(env: Env, enabled: bool, room: bool, states: seq<CachedStore>, requests: seq<Request>,
                     answers: seq<(Status, Bytes)>, durable: bool, n: nat)
    requires env.Lossless() && Session(env, enabled, room, states, requests, answers, durable)
    requires CachedInv(env, states[0], durable) && n < |requests| && requests[n].Get?
    ensures var key, a, m := requests[n].key, states[n], MapOf(env, View(env, states[0].store), requests, n);
            if key !in m then answers[n] == (NotFound, [])
            else
              && key in a.store.mem.indices
              && var d := a.store.mem.indices[key];
                 var missed := if !requests[n].useReadCache || !enabled || d.loc.id == a.store.maxFile
                               then d.loc.offset + d.entrySize == MAX_FILE_BYTES else Behind(a, key);
                 answers[n] == if missed then (Corruption, []) else (Ok, m[key])
  {
    hide Inv, Durable, AsOf, Answers, Behind, MapOf, Contents;
    SessionKeeps(env, enabled, room, states, requests, answers, durable, n);
    ViewKeys(env, states[n].store);
    assert Responds(env, enabled, room, states[n], requests[n], states[n + 1], answers[n], durable);
    AnswerIs(env, enabled, room, states[n], requests[n].key, requests[n].useReadCache, states[n + 1], answers[n]);
  }

  // ---------------------------------------------------------------- the bypass

  /** No compaction makes another file active. */
  ghost predicate KeepsUp(states: seq<CachedStore>, requests: seq<Request>)
    requires |states| == |requests| + 1
  {
    forall i :: 0 <= i < |requests| && requests[i].Do? && requests[i].op.DoCompact? ==>
      states[i + 1].store.active == states[i].store.active
  }

  lemma OpCatchesUp(env: Env, s: Store, op: Op, durable: bool)
    requires Inv(env, s) && Allowed(env, s, op, durable) && s.maxFile == s.active
    requires op.DoCompact? ==> Apply(env, s, op).active == s.active
    ensures Apply(env, s, op).maxFile == Apply(env, s, op).active
  {
    hide Inv, Put, Copied, Safe, RecoverAll, SeenLog, Harmless;
    match op
    case DoPut(key, value) => PutMaxFile(env, s, key, value);
    case DoDelete(key) => PutMaxFile(env, s, key, []);
    case DoCompact(f) => if f in s.log { CompactLagsBehind(env, s, f); }
    case _ =>
  }

  lemma PutMaxFile(env: Env, s: Store, key: Bytes, value: Bytes)
    requires Inv(env, s) && PutAllowed(env, key, value) && s.maxFile == s.active
    ensures Put(env, s, key, value).1.maxFile == Put(env, s, key, value).1.active
  {
    hide Publish, PublishUncharged, MemOk, Genuine, Total;
  }

  /** The bypass names the active file, and the cache is clean. */
  ghost predicate UpToDate(a: CachedStore)
  {
    a.store.maxFile == a.store.active && Clean(a.blocks, a.store.log, a.store.active)
  }

  lemma RequestKeepsUp(env: Env, enabled: bool, room: bool, a: CachedStore, request: Request, b: CachedStore,
                       r: (Status, Bytes), durable: bool)
    requires Inv(env, a.store) && UpToDate(a) && Responds(env, enabled, room, a, request, b, r, durable)
    requires request.Do? && request.op.DoCompact? ==> b.store.active == a.store.active
    ensures UpToDate(b)
  {
    hide Inv, Clean, AsOf, Allowed, Answers, Apply;
    match request
    case Do(op) =>
      OpCatchesUp(env, a.store, op, durable);
      ChangeKeepsCache(env, a, op, durable);
    case Get(key, useReadCache) =>
      CleanAnswer(env, enabled, room, a, key, useReadCache, b, r);
      AnswerKeepsStore(env, enabled, room, a, key, useReadCache, b, r);
  }

  lemma {:induction false} SessionKeepsUp(env: Env, enabled: bool, room: bool, states: seq<CachedStore>, requests: seq<Request>,
                                          answers: seq<(Status, Bytes)>, durable: bool, n: nat)
    requires env.Lossless() && Session(env, enabled, room, states, requests, answers, durable) && KeepsUp(states, requests)
    requires CachedInv(env, states[0], durable) && UpToDate(states[0]) && n < |states|
    ensures UpToDate(states[n])
  {
    hide Inv, Durable, AsOf, Responds, View, MapOf, UpToDate;
    if n > 0 {
      SessionKeepsUp(env, enabled, room, states, requests, answers, durable, n - 1);
      SessionKeeps(env, enabled, room, states, requests, answers, durable, n - 1);
      RequestKeepsUp(env, enabled, room, states[n - 1], requests[n - 1], states[n], answers[n - 1], durable);
    }
  }

  /** What the bypass is for. In every session in which no compaction makes another file active, every
      Get, of any file, with or without the cache, returns what the Puts and Deletes alone leave; only a
      record that ends at the end of its file may read as corrupt. */
  lemma BypassSuffices(env: Env, enabled: bool, room: bool, states: seq<CachedStore>, requests: seq<Request>,
                       answers: seq<(Status, Bytes)>, durable: bool, n: nat)
    requires env.Lossless() && Session(env, enabled, room, states, requests, answers, durable) && KeepsUp(states, requests)
    requires Inv(env, states[0].store) && (durable ==> Durable(states[0].store)) && UpToDate(states[0])
    requires n < |requests| && requests[n].Get?
    ensures var key, m := requests[n].key, MapOf(env, View(env, states[0].store), requests, n);
            if key !in m then answers[n] == (NotFound, [])
            else
              || answers[n] == (Ok, m[key])
              || (&& key in states[n].store.mem.indices && answers[n] == (Corruption, [])
                  && var d := states[n].store.mem.indices[key]; d.loc.offset + d.entrySize == MAX_FILE_BYTES)
  {
    hide Inv, Durable, AsOf, Clean, Answers, MapOf, Contents;
    CleanIsAsOf(states[0].blocks, states[0].store.log, states[0].store.active);
    SessionKeepsUp(env, enabled, room, states, requests, answers, durable, n);
    SessionKeeps(env, enabled, room, states, requests, answers, durable, n);
    ViewKeys(env, states[n].store);
    assert Responds(env, enabled, room, states[n], requests[n], states[n + 1], answers[n], durable);
    CleanAnswer(env, enabled, room, states[n], requests[n].key, requests[n].useReadCache, states[n + 1], answers[n]);
  }

  /** A Put brings the bypass up to date: the active file is read directly after it. */
  lemma PutCatchesUp(env: Env, s: Store, key: Bytes, value: Bytes)
    requires Inv(env, s) && Size(env.Record(key, value)) <= MAX_FILE_BYTES
    ensures Put(env, s, key, value).1.maxFile == Put(env, s, key, value).1.active
  {
  }

  /** A compaction does not: when it rolls over, the new active file is not read directly. */
  lemma CompactLagsBehind(env: Env, s: Store, f: FileId)
    requires Inv(env, s) && f in s.log && f !in s.mem.tasks
    ensures Compact(s, f).maxFile == s.maxFile
    ensures Compact(s, f).active > s.active ==> Compact(s, f).maxFile != Compact(s, f).active
  {
    CopiedKeeps(env, s, f);
  }

  // ---------------------------------------------------------------- stale blocks

  /** A record appended where a block has already been cached makes that block stale: the key's record
      now starts in a block that holds unwritten space there. */
  lemma BehindAfter(blocks: imap<nat, Bytes>, rs: seq<Entry>, s: Store, key: Bytes)
    requires Total(rs) < MAX_FILE_BYTES && key in s.mem.indices && s.mem.indices[key].loc.offset == Total(rs)
    requires var idx := BlockIdx(s.mem.indices[key].loc.id, Total(rs)); idx in blocks && IsBlock(blocks[idx], Image(rs), idx)
    ensures Behind(CachedStore(s, blocks), key)
  {
    BlockOf(s.mem.indices[key].loc.id, Total(rs), 0);
    ImagePrefix(rs, |rs|, Total(rs));
    assert rs[..|rs|] == rs;
  }

  /** Any Put, while the block where the next record goes is cached: a Get of it through the cache
      fails, though the map has the value. */
  lemma StaleBlock(env: Env, a: CachedStore, key: Bytes, value: Bytes)
    requires Inv(env, a.store) && env.Lossless() && AsOf(a.blocks, a.store.log, a.store.active)
    requires PutAllowed(env, key, value) && value != []
    requires Total(RecordsOf(a.store.log, a.store.active)) + Size(env.Record(key, value)) <= MAX_FILE_BYTES
    requires var rs := RecordsOf(a.store.log, a.store.active);
             var idx := BlockIdx(a.store.active, Total(rs));
             idx in a.blocks && IsBlock(a.blocks[idx], Image(rs), idx)
    ensures var s' := Put(env, a.store, key, value).1;
            && Readable(s', key) && View(env, s') == View(env, a.store)[key := value]
            && CachedGet(env, CachedStore(s', a.blocks), key) == (Corruption, [])
  {
    hide Inv, Put, View, AsOf, IsBlock, Image, CachedGet, BlockIdx, Follows;
    var s' := Put(env, a.store, key, value).1;
    PutUpdatesView(env, a.store, key, value);
    PutKeepsInv(env, a.store, key, value);
    PutFollows(env, a.store, key, value);
    AsOfFollows(a.blocks, a.store.log, a.store.active, s'.log, s'.active);
    PutEffect(env, a.store, key, value);
    BehindAfter(a.blocks, RecordsOf(a.store.log, a.store.active), s', key);
    CachedGetIs(env, CachedStore(s', a.blocks), key);
  }
}

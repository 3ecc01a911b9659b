/** The block cache that serves the reads that do not bypass it (include/pedrodb/cache/read_cache.h). */
module BlockCache {
  import opened Basics
  import opened RecordFormat
  import opened Blocks
  import opened Segments

  // ---------------------------------------------------------------- reading

  function Max(a: nat, b: nat): (m: nat)
  {
    if a < b then b else a
  }

  function Min(a: nat, b: nat): (m: nat)
  {
    if a < b then a else b
  }

  /** The supplier of a missing block: a whole block read from the file, or an error. */
  function ReadBlock(file: Option<Bytes>, idx: nat): (r: (Status, Bytes))
    ensures |r.1| == BLOCK_SIZE
    ensures r.0 == Ok <==> file.Some? && BlockOffset(idx) + BLOCK_SIZE <= |file.value|
    ensures r.0 == Ok ==> r.1 == file.value[BlockOffset(idx)..BlockOffset(idx) + BLOCK_SIZE]
  {
    if file.None? || BlockOffset(idx) + BLOCK_SIZE > |file.value| then (IOError, Zeros(BLOCK_SIZE))
    else (Ok, file.value[BlockOffset(idx)..BlockOffset(idx) + BLOCK_SIZE])
  }

  /** One read: the bytes [begin, end) of a file, gathered in buf, or a view into a single block. */
  class Context {
    const file: u32
    const begin: nat
    const end: nat
    var buf: Bytes
    var block: Option<Bytes>
    var entry: Entry

    constructor (loc: Location, length: nat)
      requires loc.id < TWO_32
      ensures file == loc.id && begin == loc.offset && end == loc.offset + length
      ensures buf == [] && block == None
    {
      file, begin, end := loc.id, loc.offset, loc.offset + length;
      buf, block := [], None;
      entry := Entry(0, EMPTY, [], [], 0);
    }

    /** The bytes that Build decodes. */
    function View(): (bytes: Bytes)
      reads this
    {
      if block.Some? then block.value else buf
    }

    method Build() returns (status: Status)
      modifies this`entry
      ensures match UnPack(View()) case None => status == Corruption case Some(p) => status == Ok && entry == p.entry
    {
      var parsed := UnPack(View());
      if parsed.None? {
        return Corruption;
      }
      entry := parsed.value.entry;
      status := Ok;
    }

    /** Takes a slice of a block: as the view if it is the whole read, else behind what is there. */
    method Take(slice: Bytes)
      modifies this`buf, this`block
      ensures if |slice| == end - begin then block == Some(slice) && buf == old(buf)
              else block == old(block) && buf == old(buf) + slice
    {
      if |slice| == end - begin {
        block := Some(slice);
      } else {
        buf := buf + slice;
      }
    }
  }

  /** The bytes of block idx of a file. */
  predicate IsBlock(block: Bytes, file: Bytes, idx: nat)
  {
    BlockOffset(idx) + BLOCK_SIZE <= |file| && block == file[BlockOffset(idx)..BlockOffset(idx) + BLOCK_SIZE]
  }

  /** Every cached block of file `id` equals the file's current bytes. */
  ghost predicate Coherent(cached: imap<nat, Bytes>, id: nat, file: Bytes)
  {
    forall idx :: idx in cached && BlockFile(idx) == id ==> IsBlock(cached[idx], file, idx)
  }

  /** The file of a read exists, is made of whole blocks and covers the read. */
  predicate Whole(content: Option<Bytes>, end: nat)
  {
    content.Some? && |content.value| % BLOCK_SIZE == 0 && end <= |content.value| <= TWO_32
  }

  // ---------------------------------------------------------------- what a cache serves

  /** Byte x of file `id` as a reader through the cache gets it: from the block that is cached, else
      from the file. */
  ghost function ByteServed(cached: imap<nat, Bytes>, id: nat, file: Bytes, x: nat): (b: byte)
    requires x < |file|
  {
    var idx := BlockIdx(id, x);
    if idx in cached && BlockOffset(idx) <= x < BlockOffset(idx) + |cached[idx]| then cached[idx][x - BlockOffset(idx)]
    else file[x]
  }

  /** File `id` as a reader through the cache sees it. */
  ghost function Served(cached: imap<nat, Bytes>, id: nat, file: Bytes): (bytes: Bytes)
    ensures |bytes| == |file|
  {
    seq(|file|, x requires 0 <= x < |file| => ByteServed(cached, id, file, x))
  }

  /** The cached blocks once the file's blocks lo to hi - 1 have been read. */
  ghost function Filled(cached: imap<nat, Bytes>, file: Bytes, lo: nat, hi: nat): (filled: imap<nat, Bytes>)
  {
    imap idx: nat | idx in cached || lo <= idx < hi :: if idx in cached then cached[idx] else ReadBlock(Some(file), idx).1
  }

  /** The same; a cache without capacity keeps nothing. */
  ghost function Kept(room: bool, cached: imap<nat, Bytes>, file: Bytes, lo: nat, hi: nat): (kept: imap<nat, Bytes>)
  {
    if room then Filled(cached, file, lo, hi) else cached
  }

  ghost predicate WholeBlocks(cached: imap<nat, Bytes>)
  {
    forall idx :: idx in cached ==> |cached[idx]| == BLOCK_SIZE
  }

  /** The served file consists of the cached blocks, and of the file's own where none is cached. */
  lemma ServedBlock(cached: imap<nat, Bytes>, file: Bytes, idx: nat)
    requires WholeBlocks(cached) && BlockOffset(idx) + BLOCK_SIZE <= |file|
    ensures IsBlock(if idx in cached then cached[idx] else ReadBlock(Some(file), idx).1, Served(cached, BlockFile(idx), file), idx)
  {
    var o, id := BlockOffset(idx), BlockFile(idx);
    var block := if idx in cached then cached[idx] else ReadBlock(Some(file), idx).1;
    var slice := Served(cached, id, file)[o..o + BLOCK_SIZE];
    forall i | 0 <= i < BLOCK_SIZE ensures slice[i] == block[i] {
      BlockOfByte(idx, o + i);
      assert slice[i] == ByteServed(cached, id, file, o + i);
    }
  }

  /** A coherent cache serves the file itself. */
  lemma CoherentServes(cached: imap<nat, Bytes>, id: nat, file: Bytes)
    requires Coherent(cached, id, file) && |file| <= TWO_32
    ensures Served(cached, id, file) == file
  {
    forall x | 0 <= x < |file| ensures ByteServed(cached, id, file, x) == file[x] {
      BlockOf(id, x, 0);
      var idx := BlockIdx(id, x);
      if idx in cached { assert IsBlock(cached[idx], file, idx); }
    }
  }

  lemma ByteFilled(cached: imap<nat, Bytes>, id: nat, file: Bytes, lo: nat, hi: nat, x: nat)
    requires x < |file| <= TWO_32
    requires forall idx :: lo <= idx < hi ==> BlockOffset(idx) + BLOCK_SIZE <= |file|
    ensures ByteServed(Filled(cached, file, lo, hi), id, file, x) == ByteServed(cached, id, file, x)
  {
    hide BlockIdx, BlockOffset, ReadBlock;
    var idx := BlockIdx(id, x);
    InBlock(id, x);
    if lo <= idx < hi { ByteRead(file, idx, x); }
  }

  /** Every byte lies in its block. */
  lemma InBlock(id: nat, x: nat)
    requires x < TWO_32
    ensures BlockOffset(BlockIdx(id, x)) <= x < BlockOffset(BlockIdx(id, x)) + BLOCK_SIZE
  {
    BlockOf(id, x, 0);
  }

  lemma ByteRead(file: Bytes, idx: nat, x: nat)
    requires BlockOffset(idx) <= x < BlockOffset(idx) + BLOCK_SIZE <= |file|
    ensures ReadBlock(Some(file), idx).1[x - BlockOffset(idx)] == file[x]
  {
    hide BlockOffset;
  }

  /** Reading blocks changes nothing of what the cache serves of the file, and keeps it coherent. */
  lemma FilledServes(cached: imap<nat, Bytes>, id: nat, file: Bytes, lo: nat, hi: nat)
    requires |file| <= TWO_32
    requires forall idx :: lo <= idx < hi ==> BlockFile(idx) == id && BlockOffset(idx) + BLOCK_SIZE <= |file|
    ensures Served(Filled(cached, file, lo, hi), id, file) == Served(cached, id, file)
    ensures Coherent(cached, id, file) ==> Coherent(Filled(cached, file, lo, hi), id, file)
    ensures SameElsewhere(cached, Filled(cached, file, lo, hi), id)
  {
    hide BlockIdx, BlockOffset, BlockFile, ByteServed;
    var filled := Filled(cached, file, lo, hi);
    forall x | 0 <= x < |file| ensures ByteServed(filled, id, file, x) == ByteServed(cached, id, file, x) {
      ByteFilled(cached, id, file, lo, hi, x);
    }
    assert Served(filled, id, file) == Served(cached, id, file);
  }

  /** The part of block idx, at offset o, that lies in [begin, end). */
  function Part(block: Bytes, o: nat, begin: nat, end: nat): (slice: Bytes)
    requires |block| == BLOCK_SIZE && o < end && begin < end && begin < o + BLOCK_SIZE
    ensures |slice| == Min(o + BLOCK_SIZE, end) - Max(o, begin)
  {
    block[Max(o, begin) - o..Min(o + BLOCK_SIZE, end) - o]
  }

  lemma PartOfFile(file: Bytes, block: Bytes, idx: nat, begin: nat, end: nat)
    requires |block| == BLOCK_SIZE && BlockOffset(idx) < end && begin < end && begin < BlockOffset(idx) + BLOCK_SIZE
    requires IsBlock(block, file, idx)
    ensures var o := BlockOffset(idx); Part(block, o, begin, end) == file[Max(o, begin)..Min(o + BLOCK_SIZE, end)]
  {
    var o := BlockOffset(idx);
    SliceSlice(file, o, BLOCK_SIZE, Max(o, begin) - o, Min(o + BLOCK_SIZE, end) - o);
  }

  /** The cached blocks of all other files are the same. */
  ghost predicate SameElsewhere(a: imap<nat, Bytes>, b: imap<nat, Bytes>, id: nat)
  {
    forall idx :: BlockFile(idx) != id ==> (idx in a <==> idx in b) && (idx in a ==> a[idx] == b[idx])
  }

  /** What a context holds after n blocks from offset o on: the whole read once one block covers it,
      else the bytes up to the end of the n-th block. */
  predicate Gathered(file: Bytes, begin: nat, end: nat, o: nat, n: nat, buf: Bytes, block: Option<Bytes>)
    requires begin < end <= |file| && o <= begin
  {
    if n == 0 then buf == [] && block == None
    else if end <= o + BLOCK_SIZE then n == 1 && block == Some(file[begin..end])
    else begin <= o + n * BLOCK_SIZE && block == None && buf == file[begin..Min(end, o + n * BLOCK_SIZE)]
  }

  /** What fetching block i on top of the blocks lo to i - 1 finds and leaves. */
  lemma Fetched(room: bool, start: imap<nat, Bytes>, before: imap<nat, Bytes>, after: imap<nat, Bytes>, file: Bytes,
                lo: nat, i: nat, status: Status, data: Bytes)
    requires WholeBlocks(start) && lo <= i && before == Kept(room, start, file, lo, i)
    requires |file| % BLOCK_SIZE == 0 && BlockOffset(i) < |file|
    requires i in before ==> status == Ok && data == before[i] && after == before
    requires i !in before ==> (status, data) == ReadBlock(Some(file), i)
                              && after == if status == Ok && room then before[i := data] else before
    ensures status == Ok && IsBlock(data, Served(start, BlockFile(i), file), i)
    ensures after == Kept(room, start, file, lo, i + 1)
  {
    AlignedOffset(i);
    ServedBlock(start, file, i);
    assert i in before <==> i in start;
    var target := Kept(room, start, file, lo, i + 1);
    assert forall idx :: idx in after <==> idx in target;
    assert forall idx :: idx in after ==> after[idx] == target[idx];
  }

  lemma GatheredSlice(file: Bytes, begin: nat, end: nat, o: nat, n: nat, at: nat, slice: Bytes, buf: Bytes, block: Option<Bytes>)
    requires begin < end <= |file| && o <= begin < o + BLOCK_SIZE
    requires Gathered(file, begin, end, o, n, buf, block)
    requires at == o + n * BLOCK_SIZE < end && slice == file[Max(at, begin)..Min(at + BLOCK_SIZE, end)]
    ensures if |slice| == end - begin then Gathered(file, begin, end, o, n + 1, buf, Some(slice))
            else Gathered(file, begin, end, o, n + 1, buf + slice, block)
  {
    assert at + BLOCK_SIZE == o + (n + 1) * BLOCK_SIZE;
    if n == 0 {
      assert [] + slice == slice;
    } else {
      SliceJoin(file, begin, at, Min(at + BLOCK_SIZE, end));
    }
  }

  lemma SliceJoin(s: Bytes, a: nat, b: nat, c: nat)
    requires a <= b <= c <= |s|
    ensures s[a..b] + s[b..c] == s[a..c]
  {
  }

  lemma GatheredStep(file: Bytes, begin: nat, end: nat, o: nat, n: nat, idx: nat, data: Bytes, buf: Bytes, block: Option<Bytes>)
    requires begin < end <= |file| && o <= begin < o + BLOCK_SIZE
    requires Gathered(file, begin, end, o, n, buf, block)
    requires BlockOffset(idx) == o + n * BLOCK_SIZE < end && |data| == BLOCK_SIZE && IsBlock(data, file, idx)
    ensures var slice := Part(data, BlockOffset(idx), begin, end);
            if |slice| == end - begin then Gathered(file, begin, end, o, n + 1, buf, Some(slice))
            else Gathered(file, begin, end, o, n + 1, buf + slice, block)
  {
    hide Gathered, BlockOffset;
    PartOfFile(file, data, idx, begin, end);
    GatheredSlice(file, begin, end, o, n, BlockOffset(idx), Part(data, BlockOffset(idx), begin, end), buf, block);
  }

  /** The blocks of one segment, when the segments share a number of bytes. */
  function SegmentBlocks(segments: nat, capacity: nat): (n: nat)
    requires segments > 0
  {
    (capacity + segments - 1) / segments / BLOCK_SIZE
  }

  /** A segment takes as many whole blocks as fit its share of the capacity, the least number of bytes that
      all segments together need to hold it. */
  lemma SegmentShare(segments: nat, capacity: nat) returns (share: nat)
    requires segments > 0
    ensures share * segments >= capacity && (share > 0 ==> (share - 1) * segments < capacity)
    ensures SegmentBlocks(segments, capacity) * BLOCK_SIZE <= share < (SegmentBlocks(segments, capacity) + 1) * BLOCK_SIZE
  {
    var x := capacity + segments - 1;
    share := x / segments;
    assert x == share * segments + x % segments;
    assert (share - 1) * segments == share * segments - segments;
  }

  class ReadCache {
    const blocks: SegmentCache<nat, Bytes>

    ghost function Repr(): (objects: set<object>)
      reads this, blocks
    {
      {this, blocks} + blocks.Repr
    }

    ghost predicate Valid()
      reads this, blocks, blocks.Repr
    {
      && this !in blocks.Repr && blocks.Valid()
      && forall idx :: blocks.Lookup(idx).Some? ==> |blocks.Lookup(idx).value| == BLOCK_SIZE
    }

    /** The cached blocks. */
    ghost function Cached(): (m: imap<nat, Bytes>)
      requires Valid()
      reads this, blocks, blocks.Repr
    {
      imap idx: nat | blocks.Lookup(idx).Some? :: blocks.Lookup(idx).value
    }

    /** The segments share the byte capacity, rounded up, in whole blocks. */
    constructor (segments: nat, capacity: nat, hash: nat -> nat)
      requires segments > 0
      ensures Valid() && fresh(Repr()) && Cached() == imap[]
      ensures blocks.capacity == SegmentBlocks(segments, capacity)
    {
      hide SegmentBlocks, SegmentCache.Valid, SegmentCache.Lookup;
      blocks := new SegmentCache<nat, Bytes>(segments, SegmentBlocks(segments, capacity), hash);
    }

    /** Block idx, from the cache or else read from the file and cached. */
    method FetchBlock(idx: nat, file: Option<Bytes>) returns (status: Status, block: Bytes)
      requires Valid()
      modifies blocks.Repr
      ensures Valid() && fresh(blocks.Repr - old(blocks.Repr))
      ensures |block| == BLOCK_SIZE
      ensures idx in old(Cached()) ==> status == Ok && block == old(Cached())[idx] && Cached() == old(Cached())
      ensures idx !in old(Cached()) ==>
                (status, block) == ReadBlock(file, idx)
                && Cached() == if status == Ok && blocks.capacity != 0 then old(Cached())[idx := block] else old(Cached())
    {
      hide SegmentCache.Valid, SegmentCache.Lookup, ReadBlock;
      ghost var before := Cached();
      status, block := blocks.GetOrCompute(idx, () => ReadBlock(file, idx));
      if blocks.Lookup(idx) == old(blocks.Lookup(idx)) {
        assert Cached() == before;
      } else {
        assert Cached() == before[idx := block];
      }
    }

    /** Takes from block idx, the n-th from offset o on, the part that the read needs. */
    method GetBlock(idx: nat, ctx: Context, content: Option<Bytes>, ghost start: imap<nat, Bytes>, ghost o: nat, ghost n: nat)
      returns (status: Status)
      requires Valid() && ctx !in Repr() && WholeBlocks(start)
      requires ctx.begin < ctx.end && o <= ctx.begin < o + BLOCK_SIZE && ctx.end + BLOCK_SIZE <= TWO_32
      requires BlockFile(idx) == ctx.file && BlockOffset(idx) == o + n * BLOCK_SIZE < ctx.end && n <= idx
      requires SameElsewhere(start, Cached(), ctx.file)
      requires Whole(content, ctx.end) ==> Cached() == Kept(blocks.capacity != 0, start, content.value, idx - n, idx)
      modifies blocks.Repr, ctx`buf, ctx`block
      ensures Valid() && fresh(blocks.Repr - old(blocks.Repr)) && ctx !in Repr()
      ensures SameElsewhere(start, Cached(), ctx.file)
      ensures Whole(content, ctx.end) ==>
                && status == Ok && Cached() == Kept(blocks.capacity != 0, start, content.value, idx - n, idx + 1)
                && var file := Served(start, ctx.file, content.value);
                   Gathered(file, ctx.begin, ctx.end, o, n, old(ctx.buf), old(ctx.block)) ==>
                     Gathered(file, ctx.begin, ctx.end, o, n + 1, ctx.buf, ctx.block)
    {
      hide SegmentCache.Valid, SegmentCache.Lookup, ReadCache.Valid, Cached, ReadBlock, Gathered, Served, Kept, Filled,
           WholeBlocks, SameElsewhere, BlockFile, BlockOffset, GetOffset, Part;
      ghost var before := Cached();
      var block;
      status, block := FetchBlock(idx, content);
      OtherFilesSame(start, before, Cached(), ctx.file, idx, block);
      if Whole(content, ctx.end) {
        Fetched(blocks.capacity != 0, start, before, Cached(), content.value, idx - n, idx, status, block);
      }
      if status != Ok {
        return;
      }
      if Whole(content, ctx.end) {
        ghost var file := Served(start, ctx.file, content.value);
        if Gathered(file, ctx.begin, ctx.end, o, n, ctx.buf, ctx.block) {
          GatheredStep(file, ctx.begin, ctx.end, o, n, idx, block, ctx.buf, ctx.block);
        }
      }
      TakePart(idx, block, ctx);
    }

    /** Takes the part of the block between the read's bounds: the block ends where the next begins. */
    method TakePart(idx: nat, block: Bytes, ctx: Context)
      requires |block| == BLOCK_SIZE && ctx.begin < ctx.end && ctx.end + BLOCK_SIZE <= TWO_32
      requires BlockOffset(idx) < ctx.end && ctx.begin < BlockOffset(idx) + BLOCK_SIZE
      modifies ctx`buf, ctx`block
      ensures var slice := Part(block, BlockOffset(idx), ctx.begin, ctx.end);
              if |slice| == ctx.end - ctx.begin then ctx.block == Some(slice) && ctx.buf == old(ctx.buf)
              else ctx.block == old(ctx.block) && ctx.buf == old(ctx.buf) + slice
    {
      hide GetOffset, BlockOffset;
      UnpacksByShifts(idx);
      UnpacksByShifts(idx + 1);
      NextBlock(idx);
      var first, next := GetOffset(idx), GetOffset(idx + 1);
      ctx.Take(block[Max(first, ctx.begin) - first..Min(next, ctx.end) - first]);
    }

    /** Reads [begin, end) of a file block by block. The context ends up with exactly the bytes that
        the cache serves for the file, the file's own where no block is cached, as a view into the
        block if one block covers them all, and with the entry that they decode to; and exactly the
        blocks of the read are cached afterwards that were not before. */
    method Get(ctx: Context, content: Option<Bytes>) returns (status: Status)
      requires Valid() && ctx !in Repr()
      requires ctx.begin < ctx.end && ctx.end + BLOCK_SIZE <= TWO_32 && ctx.buf == [] && ctx.block == None
      modifies blocks.Repr, ctx
      ensures Valid() && fresh(blocks.Repr - old(blocks.Repr))
      ensures SameElsewhere(old(Cached()), Cached(), ctx.file)
      ensures Whole(content, ctx.end) ==>
                && Cached() == Kept(blocks.capacity != 0, old(Cached()), content.value,
                                    BlockIdx(ctx.file, ctx.begin), BlockIdx(ctx.file, ctx.end - 1) + 1)
                && var bytes := Served(old(Cached()), ctx.file, content.value)[ctx.begin..ctx.end];
                   && ctx.View() == bytes
                   && (ctx.block.Some? <==> ctx.end <= ctx.begin / BLOCK_SIZE * BLOCK_SIZE + BLOCK_SIZE)
                   && match UnPack(bytes)
                      case None => status == Corruption
                      case Some(p) => status == Ok && ctx.entry == p.entry
    {
      hide SegmentCache.Valid, SegmentCache.Lookup, ReadCache.Valid, Cached, UnPack, Whole, Served, Kept, SameElsewhere, BlockIdx;
      status := GatherBlocks(ctx, content);
      if status == Ok {
        status := ctx.Build();
      }
    }

    /** The loop of Get. */
    method GatherBlocks(ctx: Context, content: Option<Bytes>) returns (status: Status)
      requires Valid() && ctx !in Repr()
      requires ctx.begin < ctx.end && ctx.end + BLOCK_SIZE <= TWO_32 && ctx.buf == [] && ctx.block == None
      modifies blocks.Repr, ctx`buf, ctx`block
      ensures Valid() && fresh(blocks.Repr - old(blocks.Repr)) && ctx !in Repr()
      ensures SameElsewhere(old(Cached()), Cached(), ctx.file) && (Whole(content, ctx.end) ==> status == Ok)
      ensures status == Ok ==>
                ReadAll(blocks.capacity != 0, old(Cached()), Cached(), content, ctx.file, ctx.begin, ctx.end, ctx.View(), ctx.block.Some?)
    {
      hide SegmentCache.Valid, SegmentCache.Lookup, ReadCache.Valid, Cached, ReadTo, Served, Kept, SameElsewhere, BlockIdx, BlockOffset,
           GetOffset, GetBlockIdx, WholeBlocks, Whole, Gathered, ReadAll;
      PacksByShifts(ctx.file, ctx.begin);
      var first := GetBlockIdx(ctx.file, ctx.begin);
      var i := first;
      ghost var room, start := blocks.capacity != 0, Cached();
      CachedWhole();
      NothingRead(room, start, content, ctx.file, ctx.begin, ctx.end);
      UnpacksByShifts(i);
      while GetOffset(i) < ctx.end
        invariant Valid() && fresh(blocks.Repr - old(blocks.Repr)) && ctx !in Repr()
        invariant GetOffset(i) == BlockOffset(i)
        invariant ReadTo(room, start, Cached(), content, ctx.file, ctx.begin, ctx.end, first, i, ctx.buf, ctx.block)
        decreases ctx.end - GetOffset(i)
      {
        status := NextPart(i, ctx, content, start, first);
        if status != Ok {
          return;
        }
        UnpacksByShifts(i + 1);
        i := i + 1;
      }
      AllRead(room, start, Cached(), content, ctx.file, ctx.begin, ctx.end, first, i, ctx.buf, ctx.block);
      status := Ok;
    }

    /** One round of the loop. */
    method NextPart(i: nat, ctx: Context, content: Option<Bytes>, ghost start: imap<nat, Bytes>, ghost first: nat)
      returns (status: Status)
      requires Valid() && ctx !in Repr() && WholeBlocks(start)
      requires ctx.begin < ctx.end && ctx.end + BLOCK_SIZE <= TWO_32 && BlockOffset(i) < ctx.end
      requires ReadTo(blocks.capacity != 0, start, Cached(), content, ctx.file, ctx.begin, ctx.end, first, i, ctx.buf, ctx.block)
      modifies blocks.Repr, ctx`buf, ctx`block
      ensures Valid() && fresh(blocks.Repr - old(blocks.Repr)) && ctx !in Repr()
      ensures SameElsewhere(start, Cached(), ctx.file) && (Whole(content, ctx.end) ==> status == Ok)
      ensures BlockOffset(i + 1) > BlockOffset(i)
      ensures status == Ok ==>
                ReadTo(blocks.capacity != 0, start, Cached(), content, ctx.file, ctx.begin, ctx.end, first, i + 1, ctx.buf, ctx.block)
    {
      hide SegmentCache.Valid, SegmentCache.Lookup, ReadCache.Valid, Cached, Gathered, Served, Kept, SameElsewhere, BlockFile, BlockOffset,
           WholeBlocks;
      NextBlock(i);
      status := GetBlock(i, ctx, content, start, BlockOffset(first), i - first);
    }

    lemma CachedWhole()
      requires Valid()
      ensures WholeBlocks(Cached())
    {
    }
  }

  lemma OtherFilesSame(start: imap<nat, Bytes>, before: imap<nat, Bytes>, after: imap<nat, Bytes>, id: nat, idx: nat, block: Bytes)
    requires SameElsewhere(start, before, id) && BlockFile(idx) == id && after in {before, before[idx := block]}
    ensures SameElsewhere(start, after, id)
  {
  }

  /** How far a read has got before block i: which blocks of the file it has left in the cache, and
      what it has gathered of the file as the cache served it at the start. */
  ghost predicate ReadTo(room: bool, start: imap<nat, Bytes>, now: imap<nat, Bytes>, content: Option<Bytes>,
                         id: nat, begin: nat, end: nat, first: nat, i: nat, buf: Bytes, block: Option<Bytes>)
    requires begin < end
  {
    var o := BlockOffset(first);
    && first <= i && BlockFile(i) == id && o <= begin < o + BLOCK_SIZE
    && BlockOffset(i) == o + (i - first) * BLOCK_SIZE < end + BLOCK_SIZE
    && SameElsewhere(start, now, id)
    && (Whole(content, end) ==>
          && now == Kept(room, start, content.value, first, i)
          && Gathered(Served(start, id, content.value), begin, end, o, i - first, buf, block))
  }

  lemma NothingRead(room: bool, start: imap<nat, Bytes>, content: Option<Bytes>, id: nat, begin: nat, end: nat)
    requires begin < end && end + BLOCK_SIZE <= TWO_32
    ensures ReadTo(room, start, start, content, id, begin, end, BlockIdx(id, begin), BlockIdx(id, begin), [], None)
  {
    hide Served, BlockIdx, BlockFile, BlockOffset;
    BlockOf(id, begin, 0);
  }

  /** What a whole read leaves in the cache and has gathered. */
  ghost predicate ReadAll(room: bool, start: imap<nat, Bytes>, now: imap<nat, Bytes>, content: Option<Bytes>,
                          id: nat, begin: nat, end: nat, view: Bytes, isView: bool)
    requires begin < end
  {
    Whole(content, end) ==>
      && now == Kept(room, start, content.value, BlockIdx(id, begin), BlockIdx(id, end - 1) + 1)
      && view == Served(start, id, content.value)[begin..end]
      && (isView <==> end <= begin / BLOCK_SIZE * BLOCK_SIZE + BLOCK_SIZE)
  }

  lemma AllRead(room: bool, start: imap<nat, Bytes>, now: imap<nat, Bytes>, content: Option<Bytes>,
                id: nat, begin: nat, end: nat, first: nat, i: nat, buf: Bytes, block: Option<Bytes>)
    requires begin < end && end + BLOCK_SIZE <= TWO_32 && first == BlockIdx(id, begin) && end <= BlockOffset(i)
    requires ReadTo(room, start, now, content, id, begin, end, first, i, buf, block)
    ensures SameElsewhere(start, now, id)
    ensures ReadAll(room, start, now, content, id, begin, end, if block.Some? then block.value else buf, block.Some?)
  {
    hide Served, Kept, SameElsewhere, Gathered, BlockIdx, BlockOffset, BlockFile;
    BlockOf(id, begin, 0);
    LastBlock(id, begin, end, first, i);
    if Whole(content, end) {
      GatheredAll(Served(start, id, content.value), begin, end, BlockOffset(first), i - first, buf, block);
    }
  }

  /** The loop ends behind the block of the last byte. */
  lemma LastBlock(file: nat, begin: nat, end: nat, first: nat, i: nat)
    requires begin < end < TWO_32 && first == BlockIdx(file, begin) <= i && BlockOffset(first) <= begin
    requires BlockFile(i) == file && end <= BlockOffset(i) == BlockOffset(first) + (i - first) * BLOCK_SIZE < end + BLOCK_SIZE
    ensures i == BlockIdx(file, end - 1) + 1
  {
    var x := end - 1;
    assert BlockFile(i) * TWO_32 + BlockOffset(i) == i * BLOCK_SIZE;
    var r := BlockOffset(i) - x;
    assert file * TWO_32 + x == i * BLOCK_SIZE - r == (i - 1) * BLOCK_SIZE + (BLOCK_SIZE - r);
  }

  lemma GatheredAll(file: Bytes, begin: nat, end: nat, o: nat, n: nat, buf: Bytes, block: Option<Bytes>)
    requires begin < end <= |file| && o <= begin && end <= o + n * BLOCK_SIZE
    requires Gathered(file, begin, end, o, n, buf, block)
    ensures (if block.Some? then block.value else buf) == file[begin..end]
    ensures block.Some? <==> end <= o + BLOCK_SIZE
  {
  }
}

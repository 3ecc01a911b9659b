/** The index file that lets recovery skip a data file's values
    (include/pedrodb/format/index_format.h, include/pedrodb/iterator/index_iterator.h). */
module IndexFormat {
  import opened Basics
  import opened RecordFormat
  import opened Buffers

  const INDEX_HEADER_SIZE: nat := 10

  // What recovery needs to know about a record.
  datatype IndexEntry = IndexEntry(kind: byte, key: Bytes, offset: u32, len: u32)

  datatype ParsedIndex = ParsedIndex(entry: IndexEntry, size: nat)

  function PackIndex(v: IndexEntry): (s: Bytes)
    ensures |s| == INDEX_HEADER_SIZE + |v.key|
  {
    [|v.key| % 0x100, v.kind] + U32(v.offset) + U32(v.len) + v.key
  }

  function UnPackIndex(s: Bytes): (r: Option<ParsedIndex>)
    ensures r.Some? ==> INDEX_HEADER_SIZE <= r.value.size <= |s|
  {
    if s == [] || |s| < INDEX_HEADER_SIZE + s[0] then None
    else
      var n := INDEX_HEADER_SIZE + s[0];
      Some(ParsedIndex(IndexEntry(s[1], s[INDEX_HEADER_SIZE..n], FromU32(s[2..6]), FromU32(s[6..10])), n))
  }

  /** Every byte of a packed index entry: the key's length, the type, the record's offset and length, most
      significant byte first, then the key. */
  lemma IndexLayout(v: IndexEntry)
    ensures var s := PackIndex(v);
            && |s| == 10 + |v.key|
            && s[..10] == [|v.key| % 0x100, v.kind,
                           v.offset / 0x100_0000, v.offset / 0x1_0000 % 0x100, v.offset / 0x100 % 0x100, v.offset % 0x100,
                           v.len / 0x100_0000, v.len / 0x1_0000 % 0x100, v.len / 0x100 % 0x100, v.len % 0x100]
            && s[10..] == v.key
  {
    U32Bytes(v.offset);
    U32Bytes(v.len);
    hide U32;
  }

  /** Decoding what Pack wrote, followed by anything, gives the entry back and stops at its end
      exactly when the key fits the one-byte length field. */
  lemma IndexRoundTrip(v: IndexEntry, t: Bytes)
    ensures UnPackIndex(PackIndex(v) + t) == Some(ParsedIndex(v, |PackIndex(v)|)) <==> |v.key| < 0x100
  {
    var s := PackIndex(v) + t;
    assert s[2..6] == U32(v.offset);
    assert s[6..10] == U32(v.len);
    U32RoundTrip(v.offset);
    U32RoundTrip(v.len);
    if |v.key| < 0x100 {
      assert s[INDEX_HEADER_SIZE..INDEX_HEADER_SIZE + |v.key|] == v.key;
    }
  }

  // ---------------------------------------------------------------- the index of a data file

  function EntryView(e: Entry, offset: nat): (v: IndexEntry)
    requires offset < 0x1_0000_0000
  {
    IndexEntry(e.kind, e.key, offset, SizeOf(e))
  }

  /** The index log of the records from the i-th on: the image, in order, of the data file. */
  function IndexFrom(rs: seq<Entry>, i: nat): (s: Bytes)
    requires i <= |rs| && Total(rs) <= MAX_FILE_BYTES
    decreases |rs| - i
  {
    if i == |rs| then []
    else
      OffsetMonotone(rs, i, |rs|);
      PackIndex(EntryView(rs[i], Offset(rs, i))) + IndexFrom(rs, i + 1)
  }

  function IndexImage(rs: seq<Entry>): (s: Bytes)
    requires Total(rs) <= MAX_FILE_BYTES
  {
    IndexFrom(rs, 0)
  }

  lemma {:induction false} IndexFromAppend(rs: seq<Entry>, e: Entry, i: nat)
    requires i <= |rs| && Total(rs) + Size(e) <= MAX_FILE_BYTES
    ensures Total(rs + [e]) <= MAX_FILE_BYTES
    ensures IndexFrom(rs + [e], i) == IndexFrom(rs, i) + PackIndex(EntryView(e, Total(rs)))
    decreases |rs| - i
  {
    TotalAppend(rs, e);
    var rs' := rs + [e];
    assert rs'[..i] == rs[..i];
    if i == |rs| {
      assert rs[..i] == rs;
      assert IndexFrom(rs', i + 1) == [];
    } else {
      IndexFromAppend(rs, e, i + 1);
      OffsetMonotone(rs, i, |rs|);
      Associate(PackIndex(EntryView(rs[i], Offset(rs, i))), IndexFrom(rs, i + 1), PackIndex(EntryView(e, Total(rs))));
    }
  }

  lemma Associate(a: Bytes, b: Bytes, c: Bytes)
    ensures a + (b + c) == (a + b) + c
  {
  }

  /** Appending one record appends its entry to the index log. */
  lemma IndexImageAppend(rs: seq<Entry>, e: Entry)
    requires Total(rs) + Size(e) <= MAX_FILE_BYTES
    ensures Total(rs + [e]) <= MAX_FILE_BYTES
    ensures IndexImage(rs + [e]) == IndexImage(rs) + PackIndex(EntryView(e, Total(rs)))
  {
    IndexFromAppend(rs, e, 0);
  }

  /** At the front of the index log from record i on there is exactly record i's entry. */
  lemma IndexFromFront(rs: seq<Entry>, i: nat)
    requires i <= |rs| && Total(rs) <= MAX_FILE_BYTES && AllStorable(rs)
    ensures match UnPackIndex(IndexFrom(rs, i))
            case None => i == |rs|
            case Some(p) => i < |rs| && Offset(rs, i) < MAX_FILE_BYTES
                            && p.entry == EntryView(rs[i], Offset(rs, i))
                            && IndexFrom(rs, i)[p.size..] == IndexFrom(rs, i + 1)
  {
    if i < |rs| {
      OffsetMonotone(rs, i, |rs|);
      var v := EntryView(rs[i], Offset(rs, i));
      var rest := IndexFrom(rs, i + 1);
      IndexRoundTrip(v, rest);
      DropPrefix(PackIndex(v), rest);
    }
  }

  lemma DropPrefix(a: Bytes, b: Bytes)
    ensures (a + b)[|a|..] == b
  {
  }

  // ---------------------------------------------------------------- buffers and iterator

  method PackIndexInto(buffer: ByteBuffer, v: IndexEntry)
    modifies buffer
    ensures buffer.bytes == old(buffer.bytes) + PackIndex(v)
  {
    ghost var start := buffer.bytes;
    buffer.Append([|v.key| % 0x100]);
    buffer.Append([v.kind]);
    buffer.Append(U32(v.offset));
    buffer.Append(U32(v.len));
    buffer.Append(v.key);
    assert buffer.bytes == start + PackIndex(v);
  }

  class IndexIterator {
    const buffer: ByteBuffer
    var entry: IndexEntry

    constructor (file: Bytes)
      ensures fresh(buffer) && buffer.bytes == file
    {
      buffer := new ByteBuffer(file);
      entry := IndexEntry(EMPTY, [], 0, 0);
    }

    /** Decodes the entry at the front of the buffer into `entry`. */
    method Valid() returns (ok: bool)
      modifies this, buffer
      ensures match UnPackIndex(old(buffer.bytes))
              case None => !ok && buffer.bytes == old(buffer.bytes)
              case Some(p) => ok && entry == p.entry && buffer.bytes == old(buffer.bytes)[p.size..]
    {
      if |buffer.bytes| < 1 || |buffer.bytes| < INDEX_HEADER_SIZE + buffer.bytes[0] {
        return false;
      }
      ghost var s := buffer.bytes;
      var keySize := buffer.RetrieveU8();
      var kind := buffer.RetrieveU8();
      assert buffer.bytes == s[2..];
      var offset := buffer.RetrieveU32();
      assert s[2..][..4] == s[2..6] && buffer.bytes == s[6..];
      var len := buffer.RetrieveU32();
      assert s[6..][..4] == s[6..10] && buffer.bytes == s[10..];
      var key := buffer.Retrieve(keySize);
      assert s[10..][..keySize] == s[10..10 + keySize] && s[10..][keySize..] == s[10 + keySize..];
      entry := IndexEntry(kind, key, offset, len);
      ok := true;
    }
  }
}

/** The record layout of a data file (include/pedrodb/format/record_format.h). */
module RecordFormat {
  import opened Basics

  // record::Type. Values above DELETE never reach a file, but the decoder lets them through.
  const EMPTY: byte := 0
  const SET: byte := 1
  const DELETE: byte := 2

  const HEADER_SIZE: nat := 14

  datatype Entry = Entry(checksum: u32, kind: byte, key: Bytes, value: Bytes, timestamp: u32)

  // An entry together with the number of bytes its encoding took.
  datatype Parsed = Parsed(entry: Entry, size: nat)

  function Size(e: Entry): (n: nat)
    ensures n >= HEADER_SIZE
  {
    HEADER_SIZE + |e.key| + |e.value|
  }

  /** Entry::SizeOf returns a uint32_t: the sum wraps. */
  function SizeOf(e: Entry): (n: u32)
  {
    Size(e) % 0x1_0000_0000
  }

  /** The one-byte key length and the four-byte value length truncate silently. */
  function PackHeader(e: Entry): (s: Bytes)
    ensures |s| == HEADER_SIZE
  {
    [e.kind] + U32(e.checksum) + [|e.key| % 0x100] + U32(|e.value| % 0x1_0000_0000) + U32(e.timestamp)
  }

  function Pack(e: Entry): (s: Bytes)
    ensures |s| == Size(e)
  {
    PackHeader(e) + e.key + e.value
  }

  datatype Header = Header(checksum: u32, kind: byte, keySize: byte, valueSize: u32, timestamp: u32)
  {
    function PayloadSize(): (n: nat)
    {
      keySize + valueSize
    }
  }

  /** Header::UnPack: fails on a short buffer and on the zero type byte of unwritten space. */
  function UnPackHeader(s: Bytes): (r: Option<Header>)
  {
    if |s| < HEADER_SIZE || s[0] == EMPTY then None
    else Some(Header(FromU32(s[1..5]), s[0], s[5], FromU32(s[6..10]), FromU32(s[10..14])))
  }

  /** The entry with header h whose key and value are the bytes of payload. */
  function EntryOf(h: Header, payload: Bytes): (e: Entry)
    requires |payload| == h.PayloadSize()
    ensures Size(e) == HEADER_SIZE + h.PayloadSize()
  {
    Entry(h.checksum, h.kind, payload[..h.keySize], payload[h.keySize..], h.timestamp)
  }

  /** Entry::UnPack: the entry at the front of s, if s starts with a whole one. */
  function UnPack(s: Bytes): (r: Option<Parsed>)
    ensures r.Some? ==> HEADER_SIZE <= r.value.size <= |s| && r.value.size == Size(r.value.entry)
  {
    match UnPackHeader(s)
    case None => None
    case Some(h) =>
      var n := HEADER_SIZE + h.PayloadSize();
      if |s| < n then None else Some(Parsed(EntryOf(h, s[HEADER_SIZE..n]), n))
  }

  /** What the store writes: a Set or a Delete whose lengths fit their fields. */
  predicate Storable(e: Entry)
  {
    e.kind in {SET, DELETE} && |e.key| < 0x100 && Size(e) <= MAX_FILE_BYTES
  }

  lemma HeaderFields(e: Entry, t: Bytes)
    ensures var s := PackHeader(e) + t;
            && s[0] == e.kind
            && FromU32(s[1..5]) == e.checksum
            && s[5] == |e.key| % 0x100
            && FromU32(s[6..10]) == |e.value| % 0x1_0000_0000
            && FromU32(s[10..14]) == e.timestamp
  {
    var s := PackHeader(e) + t;
    assert s[1..5] == U32(e.checksum);
    assert s[6..10] == U32(|e.value| % 0x1_0000_0000);
    assert s[10..14] == U32(e.timestamp);
    U32RoundTrip(e.checksum);
    U32RoundTrip(|e.value| % 0x1_0000_0000);
    U32RoundTrip(e.timestamp);
  }

  /** Every byte of a packed record: the type (1 for a Set, 2 for a Delete, never 0), the checksum, the
      key's length, the value's length and the timestamp, most significant byte first, then key and value. */
  lemma RecordLayout(e: Entry)
    ensures var s, n := Pack(e), |e.value| % 0x1_0000_0000;
            && |s| == 14 + |e.key| + |e.value|
            && s[..14] == [e.kind,
                           e.checksum / 0x100_0000, e.checksum / 0x1_0000 % 0x100, e.checksum / 0x100 % 0x100, e.checksum % 0x100,
                           |e.key| % 0x100,
                           n / 0x100_0000, n / 0x1_0000 % 0x100, n / 0x100 % 0x100, n % 0x100,
                           e.timestamp / 0x100_0000, e.timestamp / 0x1_0000 % 0x100, e.timestamp / 0x100 % 0x100, e.timestamp % 0x100]
            && s[14..14 + |e.key|] == e.key && s[14 + |e.key|..] == e.value
    ensures Storable(e) ==> e.kind == 1 || e.kind == 2
  {
    U32Bytes(e.checksum);
    U32Bytes(|e.value| % 0x1_0000_0000);
    U32Bytes(e.timestamp);
    hide U32;
    assert Pack(e)[..14] == PackHeader(e);
  }

  lemma UnPackLayout(h: Bytes, k: Bytes, v: Bytes, t: Bytes)
    requires |h| == HEADER_SIZE && h[0] != EMPTY && h[5] == |k| && FromU32(h[6..10]) == |v|
    ensures UnPack(h + k + v + t)
         == Some(Parsed(Entry(FromU32(h[1..5]), h[0], k, v, FromU32(h[10..14])), HEADER_SIZE + |k| + |v|))
  {
    var s := h + k + v + t;
    assert s[1..5] == h[1..5] && s[6..10] == h[6..10] && s[10..14] == h[10..14];
    var payload := s[HEADER_SIZE..HEADER_SIZE + |k| + |v|];
    assert payload == k + v;
    assert payload[..|k|] == k && payload[|k|..] == v;
  }

  /** Decoding what Pack wrote, followed by anything, gives the entry back and stops at its end
      exactly when the key fits the one-byte length field. */
  lemma RoundTrip(e: Entry, t: Bytes)
    requires e.kind != EMPTY && |e.value| < 0x1_0000_0000
    ensures UnPack(Pack(e) + t) == Some(Parsed(e, Size(e))) <==> |e.key| < 0x100
  {
    HeaderFields(e, []);
    assert PackHeader(e) + [] == PackHeader(e);
    if |e.key| < 0x100 {
      UnPackLayout(PackHeader(e), e.key, e.value, t);
    }
  }

  // ---------------------------------------------------------------- locations

  datatype Location = Location(id: FileId, offset: nat)
  {
    predicate Less(other: Location)
    {
      if id != other.id then id < other.id else offset < other.offset
    }
  }

  // What the in-memory index keeps for a key.
  datatype Dir = Dir(entrySize: nat, loc: Location)

  // ---------------------------------------------------------------- packed files

  function Total(rs: seq<Entry>): (n: nat)
  {
    if rs == [] then 0 else Total(rs[..|rs| - 1]) + Size(rs[|rs| - 1])
  }

  /** The offset of the i-th record: the sizes of the records before it. */
  function Offset(rs: seq<Entry>, i: nat): (n: nat)
    requires i <= |rs|
  {
    Total(rs[..i])
  }

  function PackAll(rs: seq<Entry>): (s: Bytes)
    ensures |s| == Total(rs)
  {
    if rs == [] then [] else PackAll(rs[..|rs| - 1]) + Pack(rs[|rs| - 1])
  }

  predicate AllStorable(rs: seq<Entry>)
  {
    forall i :: 0 <= i < |rs| ==> Storable(rs[i])
  }

  lemma AllStorableAppend(rs: seq<Entry>, e: Entry)
    requires AllStorable(rs) && Storable(e)
    ensures AllStorable(rs + [e])
  {
  }

  /** The bytes of a data file that holds the records rs: packed from offset 0, zeros behind. */
  function Image(rs: seq<Entry>): (s: Bytes)
    requires Total(rs) <= MAX_FILE_BYTES
    ensures |s| == MAX_FILE_BYTES
  {
    Padded(PackAll(rs))
  }

  function Padded(s: Bytes): (t: Bytes)
    requires |s| <= MAX_FILE_BYTES
    ensures |t| == MAX_FILE_BYTES
  {
    s + Zeros(MAX_FILE_BYTES - |s|)
  }

  lemma PaddedTail(s: Bytes)
    requires |s| <= MAX_FILE_BYTES
    ensures Padded(s)[|s|..] == Zeros(MAX_FILE_BYTES - |s|)
  {
  }

  lemma PaddedPart(s: Bytes, o: nat, p: Bytes)
    requires o + |p| <= |s| <= MAX_FILE_BYTES && s[o..o + |p|] == p
    ensures Padded(s)[o..o + |p|] == p
  {
  }

  lemma PaddedAppend(s: Bytes, t: Bytes)
    requires |s| + |t| <= MAX_FILE_BYTES
    ensures Padded(s + t) == Padded(s)[..|s|] + t + Padded(s)[|s| + |t|..]
  {
  }

  lemma TotalAppend(rs: seq<Entry>, e: Entry)
    ensures Total(rs + [e]) == Total(rs) + Size(e)
    ensures PackAll(rs + [e]) == PackAll(rs) + Pack(e)
  {
    assert (rs + [e])[..|rs|] == rs;
  }

  // No data file holds more records than fit it with empty keys and values.
  const RECORDS_PER_FILE: nat := MAX_FILE_BYTES / HEADER_SIZE

  lemma {:induction false} RecordCount(rs: seq<Entry>)
    ensures |rs| * HEADER_SIZE <= Total(rs)
  {
    if rs != [] {
      RecordCount(rs[..|rs| - 1]);
    }
  }

  lemma OffsetStep(rs: seq<Entry>, i: nat)
    requires i < |rs|
    ensures Offset(rs, i + 1) == Offset(rs, i) + Size(rs[i])
  {
    assert rs[..i + 1][..i] == rs[..i];
  }

  lemma {:induction false} OffsetMonotone(rs: seq<Entry>, i: nat, j: nat)
    requires i < j <= |rs|
    ensures Offset(rs, i) + Size(rs[i]) <= Offset(rs, j) <= Total(rs)
    decreases |rs| - i
  {
    OffsetStep(rs, i);
    assert rs[..|rs|] == rs;
    if i + 1 < j {
      OffsetMonotone(rs, i + 1, j);
    } else if j < |rs| {
      OffsetMonotone(rs, j, |rs|);
    }
  }

  lemma OffsetInjective(rs: seq<Entry>, i: nat, j: nat)
    requires i < |rs| && j < |rs| && Offset(rs, i) == Offset(rs, j)
    ensures i == j
  {
    if i < j { OffsetMonotone(rs, i, j); } else if j < i { OffsetMonotone(rs, j, i); }
  }

  function Packed(rs: seq<Entry>): (parts: seq<Bytes>)
  {
    seq(|rs|, i requires 0 <= i < |rs| => Pack(rs[i]))
  }

  lemma {:induction false} PackAllIsConcat(rs: seq<Entry>)
    ensures PackAll(rs) == Concat(Packed(rs))
    decreases |rs|
  {
    if rs != [] {
      PackAllIsConcat(rs[..|rs| - 1]);
      assert Packed(rs)[..|rs| - 1] == Packed(rs[..|rs| - 1]);
    }
  }

  lemma PackedOffset(rs: seq<Entry>, i: nat)
    requires i < |rs|
    ensures PackAll(rs) == Concat(Packed(rs)) && |Concat(Packed(rs)[..i])| == Offset(rs, i)
  {
    PackAllIsConcat(rs);
    PackAllIsConcat(rs[..i]);
    assert Packed(rs)[..i] == Packed(rs[..i]);
  }

  lemma PackAllAt(rs: seq<Entry>, i: nat, o: nat, p: Bytes)
    requires i < |rs| && o == Offset(rs, i) && p == Pack(rs[i])
    ensures o + |p| <= Total(rs)
    ensures PackAll(rs)[o..o + |p|] == p
  {
    PackedOffset(rs, i);
    ConcatAt(Packed(rs), i, o, p);
  }

  /** At the offset of record i, the file holds exactly that record's bytes. */
  lemma ImageBytes(rs: seq<Entry>, i: nat, o: nat, p: Bytes)
    requires Total(rs) <= MAX_FILE_BYTES && i < |rs| && o == Offset(rs, i) && p == Pack(rs[i])
    ensures o + |p| <= Total(rs)
    ensures Image(rs)[o..o + |p|] == p
  {
    PackAllAt(rs, i, o, p);
    PaddedPart(PackAll(rs), o, p);
  }

  lemma UnPackSlice(s: Bytes, o: nat, e: Entry)
    requires Storable(e) && o + Size(e) <= |s| && s[o..o + Size(e)] == Pack(e)
    ensures UnPack(s[o..]) == Some(Parsed(e, Size(e)))
  {
    var t := s[o + Size(e)..];
    assert s[o..] == s[o..o + Size(e)] + t;
    RoundTrip(e, t);
  }

  /** At the offset of record i, the file decodes to record i, whatever follows. */
  lemma ImageAt(rs: seq<Entry>, i: nat)
    requires Total(rs) <= MAX_FILE_BYTES && AllStorable(rs) && i < |rs|
    ensures Offset(rs, i) + Size(rs[i]) <= Total(rs)
    ensures UnPack(Image(rs)[Offset(rs, i)..]) == Some(Parsed(rs[i], Size(rs[i])))
  {
    ImageBytes(rs, i, Offset(rs, i), Pack(rs[i]));
    UnPackSlice(Image(rs), Offset(rs, i), rs[i]);
  }

  /** Behind the last record nothing decodes: the type byte is zero or the file has ended. */
  lemma ImageEnd(rs: seq<Entry>)
    requires Total(rs) <= MAX_FILE_BYTES
    ensures UnPack(Image(rs)[Total(rs)..]) == None
  {
    PaddedTail(PackAll(rs));
  }

  /** Writing one more record behind the last one turns the image of rs into that of rs + [e]. */
  lemma ImageAppend(rs: seq<Entry>, e: Entry)
    requires Total(rs) + Size(e) <= MAX_FILE_BYTES
    ensures Total(rs + [e]) == Total(rs) + Size(e)
    ensures Image(rs + [e]) == Image(rs)[..Total(rs)] + Pack(e) + Image(rs)[Total(rs) + Size(e)..]
  {
    TotalAppend(rs, e);
    PaddedAppend(PackAll(rs), Pack(e));
  }

  // ---------------------------------------------------------------- decoding a whole file

  /** The rebuild loop of FileManager::CreateFile as a function: decode until UnPack fails. */
  function Decode(s: Bytes, o: nat): (rs: seq<Entry>)
    requires o <= |s|
    decreases |s| - o
  {
    match UnPack(s[o..])
    case None => []
    case Some(p) => [p.entry] + Decode(s, o + p.size)
  }

  /** s decodes to the records rs at their offsets, and to nothing behind the last one. */
  ghost predicate Tiled(s: Bytes, rs: seq<Entry>)
  {
    && Total(rs) <= |s| && UnPack(s[Total(rs)..]) == None
    && forall i :: 0 <= i < |rs| ==> TiledAt(s, rs, i)
  }

  ghost predicate TiledAt(s: Bytes, rs: seq<Entry>, i: nat)
    requires i < |rs|
  {
    var o, n := Offset(rs, i), Size(rs[i]);
    o + n <= |s| && UnPack(s[o..]) == Some(Parsed(rs[i], n))
  }

  lemma ImageTiled(rs: seq<Entry>)
    requires Total(rs) <= MAX_FILE_BYTES && AllStorable(rs)
    ensures Tiled(Image(rs), rs)
  {
    ImageEnd(rs);
    forall i | 0 <= i < |rs| ensures TiledAt(Image(rs), rs, i) {
      ImageAt(rs, i);
    }
  }

  lemma TiledNext(s: Bytes, rs: seq<Entry>, i: nat, o: nat) returns (next: nat)
    requires Tiled(s, rs) && i < |rs| && o == Offset(rs, i)
    ensures o < next <= |s| && next == Offset(rs, i + 1) && Decode(s, o) == [rs[i]] + Decode(s, next)
  {
    assert TiledAt(s, rs, i);
    OffsetStep(rs, i);
    next := o + Size(rs[i]);
  }

  lemma {:induction false} DecodeTiled(s: Bytes, rs: seq<Entry>, i: nat, o: nat)
    requires Tiled(s, rs) && i <= |rs| && o == Offset(rs, i)
    ensures o <= |s| && Decode(s, o) == rs[i..]
    decreases |rs| - i
  {
    if i == |rs| {
      assert rs[..|rs|] == rs;
    } else {
      var next := TiledNext(s, rs, i, o);
      DecodeTiled(s, rs, i + 1, next);
      assert rs[i..] == [rs[i]] + rs[i + 1..];
    }
  }

  /** A file's bytes determine its records: decoding is a left inverse of Image. */
  lemma DecodeImage(rs: seq<Entry>)
    requires Total(rs) <= MAX_FILE_BYTES && AllStorable(rs)
    ensures Decode(Image(rs), 0) == rs
  {
    ImageTiled(rs);
    DecodeTiled(Image(rs), rs, 0, 0);
  }

  // ---------------------------------------------------------------- lookup by offset

  /** The record that starts at a byte offset, if one does. */
  function RecordAt(rs: seq<Entry>, offset: nat): (r: Option<Entry>)
  {
    if rs == [] then None
    else if Total(rs[..|rs| - 1]) == offset then Some(rs[|rs| - 1])
    else RecordAt(rs[..|rs| - 1], offset)
  }

  lemma {:induction false} RecordAtIndex(rs: seq<Entry>, offset: nat) returns (i: nat)
    requires RecordAt(rs, offset).Some?
    ensures i < |rs| && Offset(rs, i) == offset && RecordAt(rs, offset) == Some(rs[i])
    decreases |rs|
  {
    var n := |rs| - 1;
    if Total(rs[..n]) == offset {
      i := n;
    } else {
      i := RecordAtIndex(rs[..n], offset);
      assert rs[..n][..i] == rs[..i];
    }
  }

  lemma {:induction false} RecordAtOffset(rs: seq<Entry>, i: nat)
    requires i < |rs|
    ensures RecordAt(rs, Offset(rs, i)) == Some(rs[i])
    decreases |rs|
  {
    var n := |rs| - 1;
    if i < n {
      OffsetMonotone(rs, i, n);
      RecordAtOffset(rs[..n], i);
      assert rs[..n][..i] == rs[..i];
    }
  }

  lemma RecordAtAppend(rs: seq<Entry>, e: Entry, offset: nat)
    ensures RecordAt(rs + [e], offset) == if offset == Total(rs) then Some(e) else RecordAt(rs, offset)
    ensures RecordAt(rs, offset).Some? ==> offset + HEADER_SIZE <= Total(rs)
  {
    assert (rs + [e])[..|rs|] == rs;
    if RecordAt(rs, offset).Some? {
      var i := RecordAtIndex(rs, offset);
      OffsetMonotone(rs, i, |rs|);
      assert rs[..|rs|] == rs;
    }
  }
}

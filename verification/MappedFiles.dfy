/** The active data file: a fixed-size mapped byte array with an append position
    (include/pedrodb/file/mapping_readwrite_file.h), and packing a record into it. */
module MappedFiles {
  import opened Basics
  import opened RecordFormat
  import opened Buffers

  class MappedFile {
    const data: array<byte>
    var writeIndex: nat

    ghost predicate Valid()
      reads this
    {
      data.Length == MAX_FILE_BYTES && writeIndex <= MAX_FILE_BYTES
    }

    /** Opens a file of the fixed size with the given bytes. */
    constructor (content: Bytes)
      requires |content| == MAX_FILE_BYTES
      ensures Valid() && fresh(data) && data[..] == content && writeIndex == 0
    {
      var bytes := new byte[MAX_FILE_BYTES](i requires 0 <= i < MAX_FILE_BYTES => content[i]);
      data := bytes;
      writeIndex := 0;
    }

    method SetWriteOffset(offset: nat)
      requires Valid() && offset <= MAX_FILE_BYTES
      modifies this
      ensures Valid() && writeIndex == offset
    {
      writeIndex := offset;
    }

    /** Reserves the next n bytes: None exactly when fewer remain. A record may end at the last byte. */
    method Allocate(n: nat) returns (buffer: WritableBuffer?)
      requires Valid()
      modifies this
      ensures Valid()
      ensures if old(writeIndex) + n > MAX_FILE_BYTES then buffer == null && writeIndex == old(writeIndex)
              else buffer != null && fresh(buffer) && buffer.Valid() && buffer.data == data
                   && buffer.offset == old(writeIndex) && buffer.capacity == n && buffer.written == []
                   && buffer.before == data[..] && writeIndex == old(writeIndex) + n
    {
      if n > data.Length - writeIndex {
        return null;
      }
      buffer := new WritableBuffer(data, writeIndex, n);
      writeIndex := writeIndex + n;
    }
  }

  lemma PackedFields(start: Bytes, e: Entry)
    ensures start + [e.kind] + U32(e.checksum) + [|e.key| % 0x100] + U32(|e.value| % 0x1_0000_0000) + U32(e.timestamp)
              + e.key + e.value
         == start + Pack(e)
  {
    hide U32;
  }

  /** Entry::Pack into a mapped window, field by field. */
  method PackInto(buffer: WritableBuffer, e: Entry) returns (ok: bool)
    requires buffer.Valid() && SizeOf(e) == Size(e)
    modifies buffer, buffer.data
    ensures buffer.Valid()
    ensures ok <==> Size(e) <= buffer.capacity - old(buffer.writeIndex)
    ensures buffer.written == old(buffer.written) + if ok then Pack(e) else []
    ensures !ok ==> buffer.data[..] == old(buffer.data[..])
  {
    if buffer.capacity - buffer.writeIndex < SizeOf(e) {
      return false;
    }
    hide WritableBuffer.Valid, Pack, U32;
    ghost var start := buffer.written;
    PackedFields(start, e);
    buffer.Append([e.kind]);
    buffer.Append(U32(e.checksum));
    buffer.Append([|e.key| % 0x100]);
    buffer.Append(U32(|e.value| % 0x1_0000_0000));
    buffer.Append(U32(e.timestamp));
    buffer.Append(e.key);
    buffer.Append(e.value);
    ok := true;
  }

  /** Header::UnPack: field by field from the front of a buffer; nothing is consumed on failure. */
  method UnPackHeaderFrom(buffer: ByteBuffer) returns (h: Option<Header>)
    modifies buffer
    ensures h == UnPackHeader(old(buffer.bytes))
    ensures buffer.bytes == if h.Some? then old(buffer.bytes)[HEADER_SIZE..] else old(buffer.bytes)
  {
    ghost var s := buffer.bytes;
    if |buffer.bytes| < HEADER_SIZE || buffer.bytes[0] == EMPTY {
      return None;
    }
    var kind := buffer.RetrieveU8();
    var checksum := buffer.RetrieveU32();
    assert s[1..][..4] == s[1..5];
    var keySize := buffer.RetrieveU8();
    assert buffer.bytes == s[6..];
    var valueSize := buffer.RetrieveU32();
    assert s[6..][..4] == s[6..10];
    var timestamp := buffer.RetrieveU32();
    assert s[10..][..4] == s[10..14] && buffer.bytes == s[HEADER_SIZE..];
    h := Some(Header(checksum, kind, keySize, valueSize, timestamp));
  }

  /** Entry::UnPack from the front of a buffer: on success exactly the entry is consumed. */
  method UnPackFrom(buffer: ByteBuffer) returns (e: Option<Entry>)
    modifies buffer
    ensures match UnPack(old(buffer.bytes))
            case None => e == None
            case Some(p) => e == Some(p.entry) && buffer.bytes == old(buffer.bytes)[p.size..]
  {
    ghost var s := buffer.bytes;
    var header := UnPackHeaderFrom(buffer);
    if header.None? {
      return None;
    }
    var h := header.value;
    if |buffer.bytes| < h.PayloadSize() {
      return None;
    }
    var key := buffer.Retrieve(h.keySize);
    var value := buffer.Retrieve(h.valueSize);
    PayloadParts(s, HEADER_SIZE, h.keySize, h.valueSize);
    e := Some(Entry(h.checksum, h.kind, key, value, h.timestamp));
  }

  lemma PayloadParts(s: Bytes, o: nat, k: nat, v: nat)
    requires o + k + v <= |s|
    ensures s[o..o + k + v][..k] == s[o..][..k]
    ensures s[o..o + k + v][k..] == s[o..][k..][..v]
    ensures s[o..][k..][v..] == s[o + k + v..]
  {
    var t := s[o..];
    assert s[o..o + k + v] == t[..k + v];
  }
}

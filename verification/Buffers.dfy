/** The byte buffers the codecs read from and write to. */
module Buffers {
  import opened Basics

  /** A growing first-in first-out byte buffer: appended at the end, read from the front. */
  class ByteBuffer {
    var bytes: Bytes

    constructor (initial: Bytes)
      ensures bytes == initial
    {
      bytes := initial;
    }

    method Append(s: Bytes)
      modifies this
      ensures bytes == old(bytes) + s
    {
      bytes := bytes + s;
    }

    method Retrieve(n: nat) returns (s: Bytes)
      requires n <= |bytes|
      modifies this
      ensures s == old(bytes)[..n] && bytes == old(bytes)[n..]
    {
      s := bytes[..n];
      bytes := bytes[n..];
    }

    method RetrieveU8() returns (x: byte)
      requires |bytes| >= 1
      modifies this
      ensures x == old(bytes)[0] && bytes == old(bytes)[1..]
    {
      x := bytes[0];
      bytes := bytes[1..];
    }

    method RetrieveU16() returns (x: nat)
      requires |bytes| >= 2
      modifies this
      ensures x == FromU16(old(bytes)[..2]) && bytes == old(bytes)[2..]
    {
      x := FromU16(bytes[..2]);
      bytes := bytes[2..];
    }

    method RetrieveU32() returns (x: u32)
      requires |bytes| >= 4
      modifies this
      ensures x == FromU32(old(bytes)[..4]) && bytes == old(bytes)[4..]
    {
      x := FromU32(bytes[..4]);
      bytes := bytes[4..];
    }
  }

  /** s with t written over it at position p. */
  function Written(s: Bytes, p: nat, t: Bytes): (s': Bytes)
    requires p + |t| <= |s|
    ensures |s'| == |s|
  {
    s[..p] + t + s[p + |t|..]
  }

  lemma WrittenTwice(s: Bytes, p: nat, t: Bytes, u: Bytes)
    requires p + |t| + |u| <= |s|
    ensures Written(Written(s, p, t), p + |t|, u) == Written(s, p, t + u)
  {
  }

  /** A window of a mapped file: capacity bytes from offset on, filled from the front. */
  class WritableBuffer {
    const data: array<byte>
    const offset: nat
    const capacity: nat
    var writeIndex: nat
    // What the file held when the window was opened, and what was appended since.
    ghost const before: Bytes
    ghost var written: Bytes

    ghost predicate Valid()
      reads this, data
    {
      && |written| == writeIndex <= capacity
      && offset + capacity <= data.Length == |before|
      && data[..] == Written(before, offset, written)
    }

    constructor (data: array<byte>, offset: nat, capacity: nat)
      requires offset + capacity <= data.Length
      ensures Valid() && this.data == data && this.offset == offset && this.capacity == capacity
      ensures written == [] && before == data[..]
    {
      this.data, this.offset, this.capacity := data, offset, capacity;
      writeIndex := 0;
      before, written := data[..], [];
    }

    /** memcpy. */
    method CopyTo(p: nat, s: Bytes)
      requires p + |s| <= data.Length
      modifies data
      ensures data[..] == Written(old(data[..]), p, s)
    {
      for i := 0 to |s|
        invariant forall k :: 0 <= k < data.Length ==> data[k] == if p <= k < p + i then s[k - p] else old(data[k])
        modifies data
      {
        data[p + i] := s[i];
      }
    }

    /** Copies s to the write position. */
    method Append(s: Bytes)
      requires Valid() && writeIndex + |s| <= capacity
      modifies this`writeIndex, this`written, data
      ensures Valid() && written == old(written) + s
    {
      hide Written;
      CopyTo(offset + writeIndex, s);
      WrittenTwice(before, offset, written, s);
      written := written + s;
      writeIndex := writeIndex + |s|;
    }
  }
}

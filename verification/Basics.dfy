/** Bytes, fixed-width integers and the constants shared by the whole store. */
module Basics {
  type byte = x: int | 0 <= x < 0x100
  type u32 = x: int | 0 <= x < 0x1_0000_0000
  type Bytes = seq<byte>

  // File identifiers are file_id_t (32 bits); the store only ever compares and increments them.
  type FileId = nat

  // The fixed size of every data file: 128 MiB.
  const MAX_FILE_BYTES: nat := 134217728

  // The number of distinct file_id_t values.
  const FILE_ID_LIMIT: nat := 0x1_0000_0000

  datatype Option<+T> = None | Some(value: T)

  datatype Status = Ok | NotFound | Corruption | NotSupported | IOError

  function Zeros(n: nat): (z: Bytes)
  {
    seq(n, _ => 0)
  }

  /** The i-th byte of a 32-bit integer, most significant first. */
  function U32Byte(x: u32, i: int): byte
  {
    if i == 0 then x / 0x100_0000
    else if i == 1 then x / 0x1_0000 % 0x100
    else if i == 2 then x / 0x100 % 0x100
    else x % 0x100
  }

  /** Big-endian encoding of a 32-bit integer. */
  function U32(x: u32): (s: Bytes)
    ensures |s| == 4
  {
    seq(4, i => U32Byte(x, i))
  }

  function FromU32(s: Bytes): (x: u32)
    requires |s| == 4
  {
    s[0] as int * 0x100_0000 + s[1] as int * 0x1_0000 + s[2] as int * 0x100 + s[3]
  }

  lemma U32RoundTrip(x: u32)
    ensures FromU32(U32(x)) == x
  {
    var a, b, c := x / 0x100, x / 0x1_0000, x / 0x100_0000;
    assert b == a / 0x100 && c == b / 0x100;
  }

  /** The four bytes, the most significant first. */
  lemma U32Bytes(x: u32)
    ensures U32(x) == [x / 0x100_0000, x / 0x1_0000 % 0x100, x / 0x100 % 0x100, x % 0x100]
  {
  }

  /** Big-endian encoding of a 16-bit integer. */
  function U16(x: nat): (s: Bytes)
    requires x < 0x1_0000
    ensures |s| == 2
  {
    [x / 0x100, x % 0x100]
  }

  function FromU16(s: Bytes): (x: nat)
    requires |s| == 2
    ensures x < 0x1_0000
  {
    s[0] as int * 0x100 + s[1]
  }

  // ---------------------------------------------------------------- concatenation of parts

  function Concat(parts: seq<Bytes>): (s: Bytes)
  {
    if parts == [] then [] else Concat(parts[..|parts| - 1]) + parts[|parts| - 1]
  }

  lemma {:induction false} ConcatAt(parts: seq<Bytes>, i: nat, o: nat, p: Bytes)
    requires i < |parts| && o == |Concat(parts[..i])| && p == parts[i]
    ensures o + |p| <= |Concat(parts)| && Concat(parts)[o..o + |p|] == p
    decreases |parts|
  {
    var last := |parts| - 1;
    if i < last {
      assert parts[..last][..i] == parts[..i];
      ConcatAt(parts[..last], i, o, p);
      var a := Concat(parts[..last]);
      assert (a + parts[last])[o..o + |p|] == a[o..o + |p|];
    }
  }

  lemma SliceSlice(s: Bytes, o: nat, n: nat, a: nat, b: nat)
    requires o + n <= |s| && a <= b <= n
    ensures s[o..o + n][a..b] == s[o + a..o + b]
  {
    var block := s[o..o + n];
    var t, u := block[a..b], s[o + a..o + b];
    forall i | 0 <= i < |t| ensures t[i] == u[i] {
      assert t[i] == block[a + i];
    }
  }
}

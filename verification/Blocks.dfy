/** Block numbers: a file id and a 32-bit offset packed into 64 bits and cut into blocks of 4 KiB
    (include/pedrodb/cache/read_cache.h). */
module Blocks {
  import opened Basics

  const BLOCK_BITS: nat := 12
  const BLOCK_SIZE: nat := 4096
  const TWO_32: nat := 0x1_0000_0000
  const TWO_64: nat := 0x1_0000_0000_0000_0000

  // ---------------------------------------------------------------- unsigned 64-bit operators

  function Power(n: nat): (p: nat)
    ensures p > 0
  {
    if n == 0 then 1 else 2 * Power(n - 1)
  }

  function ShiftLeft(x: nat, n: nat): (r: nat)
  {
    x * Power(n) % TWO_64
  }

  function Quotient(x: nat, p: nat): (q: nat)
    requires p > 0
  {
    x / p
  }

  function ShiftRight(x: nat, n: nat): (r: nat)
  {
    Quotient(x, Power(n))
  }

  function Or(a: nat, b: nat): (r: nat)
    decreases a + b
  {
    if a == 0 && b == 0 then 0 else 2 * Or(a / 2, b / 2) + if a % 2 == 1 || b % 2 == 1 then 1 else 0
  }

  lemma {:induction false} OrZero(b: nat)
    ensures Or(0, b) == b
  {
    if b != 0 { OrZero(b / 2); }
  }

  /** Joining bits that do not overlap is adding them. */
  lemma {:induction false} OrIsPlus(q: nat, b: nat, n: nat)
    requires b < Power(n)
    ensures Or(q * Power(n), b) == q * Power(n) + b
  {
    var a := q * Power(n);
    if a == 0 {
      OrZero(b);
    } else if n == 0 {
      OrNothing(a);
    } else {
      var half := q * Power(n - 1);
      assert a == 2 * half;
      OrIsPlus(q, b / 2, n - 1);
      assert Or(a, b) == 2 * Or(half, b / 2) + if b % 2 == 1 then 1 else 0;
    }
  }

  lemma {:induction false} OrNothing(a: nat)
    ensures Or(a, 0) == a
  {
    if a != 0 { OrNothing(a / 2); }
  }

  lemma Powers()
    ensures Power(12) == BLOCK_SIZE && Power(32) == TWO_32
  {
    assert Power(4) == 16;
    assert Power(8) == 256;
    assert Power(12) == 4096;
    assert Power(16) == 0x1_0000;
    assert Power(20) == 0x10_0000;
    assert Power(24) == 0x100_0000;
    assert Power(28) == 0x1000_0000;
  }

  // ---------------------------------------------------------------- the code's functions

  function GetBlockIdx(file: u32, offset: u32): (idx: nat)
  {
    ShiftRight(Or(ShiftLeft(file, 32), offset), BLOCK_BITS)
  }

  /** The cast keeps the low 32 bits. */
  function GetOffset(idx: nat): (offset: u32)
  {
    ShiftLeft(idx, BLOCK_BITS) % TWO_32
  }

  function GetFile(idx: nat): (file: u32)
  {
    ShiftRight(ShiftLeft(idx, BLOCK_BITS), 32) % TWO_32
  }

  // ---------------------------------------------------------------- what they compute

  /** The number of the block that holds byte `offset` of a file. */
  function BlockIdx(file: nat, offset: nat): (idx: nat)
  {
    (file * TWO_32 + offset) / BLOCK_SIZE
  }

  /** The offset of a block's first byte in its file. */
  function BlockOffset(idx: nat): (offset: u32)
  {
    (idx * BLOCK_SIZE) % TWO_32
  }

  function BlockFile(idx: nat): (file: nat)
  {
    (idx * BLOCK_SIZE) / TWO_32
  }

  lemma ModMod(x: nat)
    ensures x % TWO_64 % TWO_32 == x % TWO_32
  {
    assert x == x / TWO_64 * TWO_64 + x % TWO_64;
    assert x / TWO_64 * TWO_64 == (x / TWO_64 * TWO_32) * TWO_32;
    var r := x % TWO_64;
    DivModUnique(x, x / TWO_64 * TWO_32 + r / TWO_32, r % TWO_32);
  }

  lemma DivModUnique(x: nat, q: nat, r: nat)
    requires x == q * TWO_32 + r && r < TWO_32
    ensures x / TWO_32 == q && x % TWO_32 == r
  {
  }

  /** The shifts and the | of the code pack a file and an offset into a block number. */
  lemma PacksByShifts(file: u32, offset: u32)
    ensures GetBlockIdx(file, offset) == BlockIdx(file, offset)
  {
    hide Power, Or;
    Powers();
    OrIsPlus(file, offset, 32);
  }

  /** And they take a block number apart again; the offset survives the cast for any number. */
  lemma UnpacksByShifts(idx: nat)
    ensures GetOffset(idx) == BlockOffset(idx)
    ensures idx * BLOCK_SIZE < TWO_64 ==> GetFile(idx) == BlockFile(idx)
  {
    hide Power;
    Powers();
    ModMod(idx * BLOCK_SIZE);
  }

  /** A block number unpacks to the file and to the offset of the block that holds the byte; block
      numbers within a file are consecutive. */
  lemma BlockOf(file: nat, offset: nat, i: nat)
    requires offset / BLOCK_SIZE * BLOCK_SIZE + i * BLOCK_SIZE < TWO_32
    ensures var idx := BlockIdx(file, offset) + i;
            && BlockFile(idx) == file
            && BlockOffset(idx) == offset / BLOCK_SIZE * BLOCK_SIZE + i * BLOCK_SIZE
            && (i == 0 ==> BlockOffset(idx) <= offset < BlockOffset(idx) + BLOCK_SIZE)
  {
    var q := offset / BLOCK_SIZE;
    assert file * TWO_32 + offset == (file * 1048576 + q) * BLOCK_SIZE + offset % BLOCK_SIZE;
    assert BlockIdx(file, offset) == file * 1048576 + q;
    var idx := BlockIdx(file, offset) + i;
    var o := (q + i) * BLOCK_SIZE;
    assert idx * BLOCK_SIZE == file * TWO_32 + o;
    assert 0 <= o < TWO_32;
    DivModUnique(idx * BLOCK_SIZE, file, o);
  }

  /** The blocks of a read lie in the file, within its size. */
  lemma BlocksOfRead(file: nat, begin: nat, end: nat, size: nat)
    requires begin < end <= size <= TWO_32 && size % BLOCK_SIZE == 0
    ensures forall idx :: BlockIdx(file, begin) <= idx < BlockIdx(file, end - 1) + 1 ==>
              BlockFile(idx) == file && BlockOffset(idx) + BLOCK_SIZE <= size
  {
    BlockOf(file, begin, 0);
    BlockOf(file, end - 1, 0);
    forall idx | BlockIdx(file, begin) <= idx < BlockIdx(file, end - 1) + 1
      ensures BlockFile(idx) == file && BlockOffset(idx) + BLOCK_SIZE <= size
    {
      var o := idx * BLOCK_SIZE - file * TWO_32;
      DivModUnique(idx * BLOCK_SIZE, file, o);
      AlignedOffset(idx);
    }
  }

  /** Conversely, every byte of a block is packed to that block's number. */
  lemma BlockOfByte(idx: nat, x: nat)
    requires BlockOffset(idx) <= x < BlockOffset(idx) + BLOCK_SIZE
    ensures BlockIdx(BlockFile(idx), x) == idx
  {
    var r := x - BlockOffset(idx);
    assert BlockFile(idx) * TWO_32 + BlockOffset(idx) == idx * BLOCK_SIZE;
    assert BlockFile(idx) * TWO_32 + x == idx * BLOCK_SIZE + r;
  }

  lemma AlignedOffset(idx: nat)
    ensures BlockOffset(idx) % BLOCK_SIZE == 0
  {
    var x := idx * BLOCK_SIZE;
    assert x == x / TWO_32 * TWO_32 + x % TWO_32;
    assert x % TWO_32 == (idx - x / TWO_32 * 1048576) * BLOCK_SIZE;
  }

  /** Unless the file ends there, the next block starts where this one ends, in the same file. */
  lemma NextBlock(idx: nat)
    requires BlockOffset(idx) + BLOCK_SIZE < TWO_32
    ensures BlockOffset(idx + 1) == BlockOffset(idx) + BLOCK_SIZE && BlockFile(idx + 1) == BlockFile(idx)
  {
    var x := idx * BLOCK_SIZE;
    DivModUnique(x, x / TWO_32, x % TWO_32);
    DivModUnique(x + BLOCK_SIZE, x / TWO_32, x % TWO_32 + BLOCK_SIZE);
    assert (idx + 1) * BLOCK_SIZE == x + BLOCK_SIZE;
  }
}

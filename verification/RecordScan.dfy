/** Scanning a data file record by record (include/pedrodb/iterator/record_iterator.h). */
module RecordScan {
  import opened Basics
  import opened RecordFormat

  /** The record the iterator can see at offset o of file s: one that decodes there and ends
      strictly before the end of the file. */
  function Visible(s: Bytes, o: nat): (r: Option<Parsed>)
    ensures r.Some? ==> o + r.value.size < |s| && r.value.size == Size(r.value.entry)
  {
    if o >= |s| then None
    else
      match UnPack(s[o..])
      case None => None
      case Some(p) => if o + p.size < |s| then Some(p) else None
  }

  /** The records of a packed file that a scan reaches: all, unless the last one fills the file to
      its last byte. */
  function Seen(rs: seq<Entry>): (seen: seq<Entry>)
    ensures seen <= rs && |rs| <= |seen| + 1
    ensures Total(rs) != MAX_FILE_BYTES ==> seen == rs
  {
    if Total(rs) == MAX_FILE_BYTES then rs[..|rs| - 1] else rs
  }

  /** At a record's offset the scan sees that record exactly when it does not end at the end of the
      file; behind the last record it sees nothing. */
  lemma VisibleAt(rs: seq<Entry>, i: nat)
    requires Total(rs) <= MAX_FILE_BYTES && AllStorable(rs) && i <= |rs|
    ensures Visible(Image(rs), Offset(rs, i))
         == if i < |Seen(rs)| then Some(Parsed(rs[i], Size(rs[i]))) else None
  {
    assert rs[..|rs|] == rs;
    if i == |rs| {
      ImageEnd(rs);
    } else {
      ImageAt(rs, i);
      VisibleEnd(rs, i);
    }
  }

  lemma VisibleEnd(rs: seq<Entry>, i: nat)
    requires Total(rs) <= MAX_FILE_BYTES && i < |rs|
    ensures Offset(rs, i) + Size(rs[i]) < MAX_FILE_BYTES <==> i < |Seen(rs)|
  {
    assert rs[..|rs|] == rs;
    OffsetStep(rs, i);
    if i + 1 < |rs| {
      OffsetMonotone(rs, i, i + 1);
      OffsetMonotone(rs, i + 1, |rs|);
    }
  }

  lemma SeenStart(seen: seq<Entry>)
    ensures Offset(seen, 0) == 0
  {
  }

  /** One step of a scan: at the n-th offset the n-th of the seen records, or nothing behind them. */
  lemma SeenAt(rs: seq<Entry>, n: nat)
    requires Total(rs) <= MAX_FILE_BYTES && AllStorable(rs) && n <= |Seen(rs)|
    ensures Visible(Image(rs), Offset(Seen(rs), n))
         == if n < |Seen(rs)| then Some(Parsed(Seen(rs)[n], Size(Seen(rs)[n]))) else None
    ensures n < |Seen(rs)| ==> Seen(rs)[n] == rs[n] && Offset(Seen(rs), n) + Size(rs[n]) < MAX_FILE_BYTES
  {
    assert Seen(rs)[..n] == rs[..n];
    VisibleAt(rs, n);
    if n < |Seen(rs)| { VisibleEnd(rs, n); }
  }

  lemma SeenOffsets(rs: seq<Entry>, n: nat)
    requires n <= |Seen(rs)|
    ensures Offset(Seen(rs), n) == Offset(rs, n)
    ensures n < |Seen(rs)| ==> Offset(Seen(rs), n + 1) == Offset(Seen(rs), n) + Size(rs[n])
  {
    assert Seen(rs)[..n] == rs[..n];
    if n < |Seen(rs)| { OffsetStep(Seen(rs), n); }
  }

  /** What a whole scan yields, starting at offset o. */
  function Scan(s: Bytes, o: nat): (rs: seq<Entry>)
    decreases |s| - o
  {
    match Visible(s, o)
    case None => []
    case Some(p) => [p.entry] + Scan(s, o + p.size)
  }

  lemma {:induction false} ScanFrom(s: Bytes, rs: seq<Entry>, i: nat, o: nat)
    requires forall j :: 0 <= j <= |rs| ==> SeesAt(s, rs, j)
    requires i <= |rs| && o == Offset(rs, i)
    ensures Scan(s, o) == rs[i..]
    decreases |rs| - i
  {
    assert SeesAt(s, rs, i);
    hide Visible, Total;
    if i < |rs| {
      var next := ScanNext(s, rs, i, o);
      ScanFrom(s, rs, i + 1, next);
      assert rs[i..] == [rs[i]] + rs[i + 1..];
    }
  }

  ghost predicate SeesAt(s: Bytes, rs: seq<Entry>, j: nat)
    requires j <= |rs|
  {
    Visible(s, Offset(rs, j)) == if j < |rs| then Some(Parsed(rs[j], Size(rs[j]))) else None
  }

  lemma ScanNext(s: Bytes, rs: seq<Entry>, i: nat, o: nat) returns (next: nat)
    requires i < |rs| && o == Offset(rs, i) && SeesAt(s, rs, i)
    ensures next == Offset(rs, i + 1) && Scan(s, o) == [rs[i]] + Scan(s, next)
  {
    OffsetStep(rs, i);
    next := o + Size(rs[i]);
  }

  /** Scanning n packed records followed by zeros from any record's offset, as after a Seek, yields
      exactly the records from there on, up to one that ends at the end of the file. */
  lemma ScanImage(rs: seq<Entry>, i: nat)
    requires Total(rs) <= MAX_FILE_BYTES && AllStorable(rs) && i <= |Seen(rs)|
    ensures Scan(Image(rs), Offset(rs, i)) == Seen(rs)[i..]
  {
    var seen := Seen(rs);
    forall j | 0 <= j <= |seen|
      ensures SeesAt(Image(rs), seen, j)
    {
      assert seen[..j] == rs[..j];
      VisibleAt(rs, j);
    }
    assert seen[..i] == rs[..i];
    ScanFrom(Image(rs), seen, i, Offset(rs, i));
  }

  /** The scan agrees with the rebuild loop of CreateFile exactly when the file is not full. */
  lemma ScanMeetsDecode(rs: seq<Entry>)
    requires Total(rs) <= MAX_FILE_BYTES && AllStorable(rs)
    ensures Scan(Image(rs), 0) == Decode(Image(rs), 0) <==> Total(rs) < MAX_FILE_BYTES
  {
    ScanImage(rs, 0);
    DecodeImage(rs);
  }

  lemma SameSlice(s: Bytes, o: nat, n: nat, a: nat, b: nat)
    requires o + n <= |s| && a <= b <= n
    ensures s[o..][a..b] == s[o..o + n][a..b]
  {
    assert s[o..] == s[o..o + (|s| - o)];
    SliceSlice(s, o, |s| - o, a, b);
    SliceSlice(s, o, n, a, b);
  }

  lemma HeaderOfSlice(s: Bytes, o: nat)
    requires o + HEADER_SIZE <= |s|
    ensures UnPackHeader(s[o..]) == UnPackHeader(s[o..o + HEADER_SIZE])
  {
    SameSlice(s, o, HEADER_SIZE, 1, 5);
    SameSlice(s, o, HEADER_SIZE, 6, 10);
    SameSlice(s, o, HEADER_SIZE, 10, 14);
  }

  /** Decoding at o can be done in two reads: the header, then the payload it announces. */
  lemma VisibleInParts(s: Bytes, o: nat)
    requires o < |s|
    ensures o + HEADER_SIZE >= |s| ==> Visible(s, o) == None
    ensures o + HEADER_SIZE < |s| ==>
      match UnPackHeader(s[o..o + HEADER_SIZE])
      case None => Visible(s, o) == None
      case Some(h) =>
        var p := o + HEADER_SIZE;
        if p + h.PayloadSize() >= |s| then Visible(s, o) == None
        else Visible(s, o) == Some(Parsed(EntryOf(h, s[p..p + h.PayloadSize()]), HEADER_SIZE + h.PayloadSize()))
  {
    if o + HEADER_SIZE < |s| {
      HeaderOfSlice(s, o);
      match UnPackHeader(s[o..o + HEADER_SIZE])
      case None =>
      case Some(h) =>
        var n := HEADER_SIZE + h.PayloadSize();
        if o + n < |s| {
          assert s[o..][HEADER_SIZE..n] == s[o + HEADER_SIZE..o + n];
        }
    }
  }

  lemma HeaderNeeds(s: Bytes)
    ensures |s| < HEADER_SIZE ==> UnPackHeader(s) == None
  {
  }

  lemma NothingBehind(s: Bytes, o: nat)
    requires o >= |s|
    ensures Visible(s, o) == None
  {
  }

  lemma EntrySize(h: Header, payload: Bytes)
    requires |payload| == h.PayloadSize()
    ensures Size(EntryOf(h, payload)) == HEADER_SIZE + h.PayloadSize()
  {
  }

  /** The iterator itself. `file` stands for the current bytes of the file it reads. */
  class RecordIterator {
    const size: nat
    var index: nat
    var readIndex: nat
    var entry: Entry
    // The readable bytes of the buffer that all iterators of a thread share.
    var buffer: Bytes

    constructor (size: nat, leftover: Bytes)
      requires size <= MAX_FILE_BYTES
      ensures this.size == size && index == 0 && readIndex == 0 && buffer == leftover
    {
      this.size := size;
      index, readIndex := 0, 0;
      entry := Entry(0, EMPTY, [], [], 0);
      buffer := leftover;
    }

    /** Stale bytes of the shared buffer cannot be taken for a header. */
    predicate Ready()
      reads this
    {
      && size <= MAX_FILE_BYTES
      && readIndex == index
      && (index + HEADER_SIZE < size || |buffer| < HEADER_SIZE)
    }

    method Fetch(file: Bytes, n: nat)
      requires |file| == size
      modifies this`readIndex, this`buffer
      ensures if old(readIndex) + n >= size
              then readIndex == old(readIndex) && buffer == old(buffer)
              else readIndex == old(readIndex) + n && buffer == file[old(readIndex)..readIndex]
    {
      if readIndex + n >= size {
        return;
      }
      buffer := file[readIndex..readIndex + n];
      readIndex := readIndex + n;
    }

    /** Decodes the record at index, in two reads: true exactly when one is visible there. */
    method Valid(file: Bytes) returns (ok: bool)
      requires Ready() && |file| == size
      modifies this`readIndex, this`buffer, this`entry
      ensures ok <==> Visible(file, index).Some?
      ensures ok ==> Visible(file, index).value.entry == entry
      ensures ok ==> readIndex == index + Size(entry) < size && buffer == []
    {
      hide Visible, UnPackHeader, EntryOf;
      if index >= size {
        NothingBehind(file, index);
        return false;
      }
      Fetch(file, HEADER_SIZE);
      VisibleInParts(file, index);
      HeaderNeeds(buffer);
      var header := UnPackHeader(buffer);
      if header.None? {
        return false;
      }
      var h := header.value;
      buffer := buffer[HEADER_SIZE..];
      Fetch(file, h.PayloadSize());
      if |buffer| < h.PayloadSize() {
        return false;
      }
      assert buffer[..h.PayloadSize()] == buffer;
      EntrySize(h, buffer);
      entry := EntryOf(h, buffer[..h.PayloadSize()]);
      buffer := buffer[h.PayloadSize()..];
      ok := true;
    }

    method Seek(offset: nat)
      modifies this
      ensures index == offset && readIndex == offset && buffer == [] && entry == old(entry)
    {
      index, readIndex := offset, offset;
      buffer := [];
    }

    method Next() returns (e: Entry)
      modifies this`index
      ensures e == entry && index == old(index) + SizeOf(entry)
    {
      index := index + SizeOf(entry);
      e := entry;
    }
  }
}

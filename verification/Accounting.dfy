/** The in-memory side of the store: the key index, the free-byte counters and the compaction queue.

    The functions mirror DBImpl's branches; the lemmas say what each keeps about a log. */
module Accounting {
  import opened Basics
  import opened RecordFormat
  import opened Log

  datatype CompactState = Nop | Queued | Scheduling | Compacting

  datatype FileState = FileState(free: nat, state: CompactState)

  datatype Mem = Mem(indices: map<Bytes, Dir>, states: map<FileId, FileState>, tasks: seq<FileId>)

  const FRESH_STATE := FileState(0, Nop)

  function StateOf(m: Mem, f: FileId): (s: FileState)
  {
    if f in m.states then m.states[f] else FRESH_STATE
  }

  /** DBImpl::UpdateUnused: charge n dead bytes to file f and queue it once past the threshold. */
  function Charge(m: Mem, threshold: nat, f: FileId, n: nat): (m': Mem)
  {
    var s := StateOf(m, f).(free := StateOf(m, f).free + n);
    if s.free >= threshold && s.state == Nop then
      m.(states := m.states[f := s.(state := Queued)], tasks := m.tasks + [f])
    else
      m.(states := m.states[f := s])
  }

  /** Charge a key's current record to its file and drop the key; nothing if it has none. */
  function Supersede(m: Mem, threshold: nat, key: Bytes): (m': Mem)
  {
    if key !in m.indices then m
    else
      var d := m.indices[key];
      Charge(m, threshold, d.loc.id, d.entrySize).(indices := m.indices - {key})
  }

  /** The index update of DBImpl::HandlePut, after the record was appended at loc. */
  function Publish(m: Mem, threshold: nat, loc: Location, key: Bytes, isDelete: bool, size: nat): (r: (Status, Mem))
  {
    if key !in m.indices then
      if isDelete then (NotFound, Charge(m, threshold, loc.id, size))
      else (Ok, m.(indices := m.indices[key := Dir(size, loc)]))
    else
      var m1 := Supersede(m, threshold, key);
      if isDelete then (Ok, m1) else (Ok, m1.(indices := m1.indices[key := Dir(size, loc)]))
  }

  /** The index update of DBImpl::Compact, after a live record was appended again at loc. */
  function PublishCopy(m: Mem, loc: Location, key: Bytes, size: nat): (m': Mem)
  {
    if key !in m.indices then m
    else if m.indices[key].loc.Less(loc) then m.(indices := m.indices[key := Dir(size, loc)])
    else m.(states := m.states[loc.id := StateOf(m, loc.id).(free := StateOf(m, loc.id).free + size)])
  }

  /** DBImpl::Recovery for one record of a log. */
  function Recover(m: Mem, threshold: nat, loc: Location, kind: byte, key: Bytes, size: nat): (m': Mem)
  {
    if kind == SET then
      if key !in m.indices then m.(indices := m.indices[key := Dir(size, loc)])
      else if loc.Less(m.indices[key].loc) then Charge(m, threshold, loc.id, size)
      else
        var m1 := Charge(m, threshold, m.indices[key].loc.id, m.indices[key].entrySize);
        m1.(indices := m1.indices[key := Dir(size, loc)])
    else if kind == DELETE then
      var m1 := Charge(m, threshold, loc.id, size);
      if key !in m1.indices || loc.Less(m1.indices[key].loc) then m1
      else Supersede(m1, threshold, key)
    else m
  }

  // ---------------------------------------------------------------- what holds of a log and its memory

  predicate IsLive(indices: map<Bytes, Dir>, key: Bytes, loc: Location)
  {
    key in indices && indices[key].loc == loc
  }

  /** The bytes of file f's records that the index points to. */
  function LiveBytes(rs: seq<Entry>, f: FileId, indices: map<Bytes, Dir>): (n: nat)
  {
    if rs == [] then 0
    else
      var i := |rs| - 1;
      LiveBytes(rs[..i], f, indices)
      + if IsLive(indices, rs[i].key, Location(f, Total(rs[..i]))) then Size(rs[i]) else 0
  }

  /** The index entry d of key k points at a Set record of that key and of that size. */
  predicate SoundAt(log: Log, k: Bytes, d: Dir)
  {
    var r := RecordAt(RecordsOf(log, d.loc.id), d.loc.offset);
    r.Some? && r.value.key == k && r.value.kind == SET && Size(r.value) == d.entrySize
  }

  ghost predicate Sound(log: Log, indices: map<Bytes, Dir>)
  {
    forall k :: k in indices ==> SoundAt(log, k, indices[k])
  }

  /** The queue holds exactly the files in state Queued, once each; a queued file has reached the
      threshold, and a file still in state Nop has not. */
  ghost predicate Scheduled(m: Mem, threshold: nat)
  {
    && (forall i, j :: 0 <= i < j < |m.tasks| ==> m.tasks[i] != m.tasks[j])
    && (forall f :: f in m.tasks <==> f in m.states && m.states[f].state == Queued)
    && (forall f :: f in m.states && m.states[f].state == Queued ==> m.states[f].free >= threshold)
    && (forall f :: f in m.states && m.states[f].state == Nop ==> m.states[f].free < threshold)
  }

  function Uncharged(u: map<FileId, nat>, f: FileId): (n: nat)
  {
    if f in u then u[f] else 0
  }

  /** Byte conservation for one file: every byte written is free, live, or not charged yet. */
  predicate Balanced(log: Log, m: Mem, u: map<FileId, nat>, f: FileId)
  {
    Total(RecordsOf(log, f)) == StateOf(m, f).free + LiveBytes(RecordsOf(log, f), f, m.indices) + Uncharged(u, f)
  }

  ghost predicate Accounted(log: Log, m: Mem, u: map<FileId, nat>)
  {
    forall f :: StateOf(m, f).state != Compacting ==> Balanced(log, m, u, f)
  }

  ghost predicate MemOk(log: Log, m: Mem, threshold: nat, u: map<FileId, nat>)
  {
    && Sound(log, m.indices)
    && Scheduled(m, threshold)
    && m.states.Keys <= log.Keys
    && Accounted(log, m, u)
  }

  // ---------------------------------------------------------------- LiveBytes

  lemma {:induction false} LiveBytesSame(rs: seq<Entry>, f: FileId, a: map<Bytes, Dir>, b: map<Bytes, Dir>)
    requires forall i :: 0 <= i < |rs| ==>
      var loc := Location(f, Offset(rs, i)); IsLive(a, rs[i].key, loc) == IsLive(b, rs[i].key, loc)
    ensures LiveBytes(rs, f, a) == LiveBytes(rs, f, b)
    decreases |rs|
  {
    if rs != [] {
      var n := |rs| - 1;
      forall i | 0 <= i < n
        ensures var loc := Location(f, Offset(rs[..n], i));
                IsLive(a, rs[..n][i].key, loc) == IsLive(b, rs[..n][i].key, loc)
      {
        assert rs[..n][..i] == rs[..i];
      }
      LiveBytesSame(rs[..n], f, a, b);
      assert Offset(rs, n) == Total(rs[..n]);
    }
  }

  /** Dropping a key takes exactly its own record out of its file's live bytes. */
  lemma {:induction false} LiveBytesDrop(rs: seq<Entry>, f: FileId, m: map<Bytes, Dir>, k: Bytes, i0: nat)
    requires k in m && i0 < |rs| && rs[i0].key == k && m[k].loc == Location(f, Offset(rs, i0))
    ensures LiveBytes(rs, f, m) == LiveBytes(rs, f, m - {k}) + Size(rs[i0])
    decreases |rs|
  {
    var n := |rs| - 1;
    if i0 == n {
      forall i | 0 <= i < n
        ensures var loc := Location(f, Offset(rs[..n], i));
                IsLive(m, rs[..n][i].key, loc) == IsLive(m - {k}, rs[..n][i].key, loc)
      {
        assert rs[..n][..i] == rs[..i];
        OffsetMonotone(rs, i, n);
      }
      LiveBytesSame(rs[..n], f, m, m - {k});
    } else {
      OffsetMonotone(rs, i0, n);
      assert rs[..n][..i0] == rs[..i0];
      LiveBytesDrop(rs[..n], f, m, k, i0);
    }
  }

  lemma LiveBytesAppend(rs: seq<Entry>, e: Entry, f: FileId, m: map<Bytes, Dir>)
    ensures LiveBytes(rs + [e], f, m)
         == LiveBytes(rs, f, m) + if IsLive(m, e.key, Location(f, Total(rs))) then Size(e) else 0
  {
    assert (rs + [e])[..|rs|] == rs;
  }

  /** Pointing a key at the end of a file makes none of the records already there live. */
  lemma LiveBytesInsert(rs: seq<Entry>, f: FileId, m: map<Bytes, Dir>, k: Bytes, d: Dir)
    requires k !in m && (d.loc.id != f || d.loc.offset >= Total(rs))
    ensures LiveBytes(rs, f, m[k := d]) == LiveBytes(rs, f, m)
  {
    forall i | 0 <= i < |rs|
      ensures var loc := Location(f, Offset(rs, i)); IsLive(m[k := d], rs[i].key, loc) == IsLive(m, rs[i].key, loc)
    {
      OffsetMonotone(rs, i, |rs|);
      assert rs[..|rs|] == rs;
    }
    LiveBytesSame(rs, f, m[k := d], m);
  }

  /** Dropping a sound entry moves its size out of the live bytes of its file and of no other. */
  lemma LiveBytesUnlink(log: Log, f: FileId, m: map<Bytes, Dir>, k: Bytes)
    requires k in m && SoundAt(log, k, m[k])
    ensures LiveBytes(RecordsOf(log, f), f, m)
         == LiveBytes(RecordsOf(log, f), f, m - {k}) + if m[k].loc.id == f then m[k].entrySize else 0
  {
    var rs := RecordsOf(log, f);
    if m[k].loc.id == f {
      var i0 := RecordAtIndex(rs, m[k].loc.offset);
      LiveBytesDrop(rs, f, m, k, i0);
    } else {
      LiveBytesSame(rs, f, m, m - {k});
    }
  }

  // ---------------------------------------------------------------- steps

  lemma ChargeEffect(m: Mem, threshold: nat, f: FileId, n: nat)
    ensures var m' := Charge(m, threshold, f, n);
            && m'.indices == m.indices
            && m'.states.Keys == m.states.Keys + {f}
            && StateOf(m', f).free == StateOf(m, f).free + n
            && (forall g :: g != f ==> StateOf(m', g) == StateOf(m, g))
            && (forall g :: StateOf(m', g).state == Compacting <==> StateOf(m, g).state == Compacting)
            && (Scheduled(m, threshold) ==> Scheduled(m', threshold))
            && (var queued := StateOf(m, f).state == Nop && StateOf(m, f).free + n >= threshold;
                && StateOf(m', f).state == (if queued then Queued else StateOf(m, f).state)
                && m'.tasks == if queued then m.tasks + [f] else m.tasks)
  {
  }

  /** Superseding keeps every balance: the bytes move from live to free in the record's own file. */
  lemma SupersedeKeeps(log: Log, m: Mem, threshold: nat, u: map<FileId, nat>, key: Bytes)
    requires MemOk(log, m, threshold, u)
    ensures var m' := Supersede(m, threshold, key);
            && MemOk(log, m', threshold, u) && m'.indices == m.indices - {key}
            && (forall g :: StateOf(m', g).state == Compacting <==> StateOf(m, g).state == Compacting)
  {
    if key in m.indices {
      var d := m.indices[key];
      assert SoundAt(log, key, d);
      ChargeEffect(m, threshold, d.loc.id, d.entrySize);
      var m' := Supersede(m, threshold, key);
      forall f | StateOf(m', f).state != Compacting
        ensures Balanced(log, m', u, f)
      {
        assert Balanced(log, m, u, f);
        LiveBytesUnlink(log, f, m.indices, key);
      }
    } else {
      assert m.indices - {key} == m.indices;
    }
  }

  lemma AppendSound(log: Log, id: FileId, e: Entry, k: Bytes, d: Dir)
    requires SoundAt(log, k, d)
    ensures SoundAt(Appended(log, id, e), k, d)
  {
    RecordAtAppend(RecordsOf(log, id), e, d.loc.offset);
  }

  /** A record nobody points to: its bytes must be charged, or stay uncharged. */
  lemma AppendDead(log: Log, id: FileId, e: Entry, m: Mem, u: map<FileId, nat>, f: FileId)
    requires Sound(log, m.indices)
    ensures var rs := RecordsOf(log, f);
            var rs' := RecordsOf(Appended(log, id, e), f);
            && Total(rs') == Total(rs) + (if f == id then Size(e) else 0)
            && LiveBytes(rs', f, m.indices) == LiveBytes(rs, f, m.indices)
  {
    var rs := RecordsOf(log, id);
    TotalAppend(rs, e);
    LiveBytesAppend(rs, e, id, m.indices);
    if IsLive(m.indices, e.key, Location(id, Total(rs))) {
      assert SoundAt(log, e.key, m.indices[e.key]);
      RecordAtAppend(rs, e, Total(rs));
    }
  }

  /** Appending a dead record and charging its size keeps everything. */
  lemma ChargeDead(log: Log, id: FileId, e: Entry, m: Mem, threshold: nat, u: map<FileId, nat>)
    requires MemOk(log, m, threshold, u)
    ensures MemOk(Appended(log, id, e), Charge(m, threshold, id, Size(e)), threshold, u)
  {
    var log', m' := Appended(log, id, e), Charge(m, threshold, id, Size(e));
    ChargeEffect(m, threshold, id, Size(e));
    forall k | k in m'.indices ensures SoundAt(log', k, m'.indices[k]) {
      AppendSound(log, id, e, k, m.indices[k]);
    }
    forall f | StateOf(m', f).state != Compacting ensures Balanced(log', m', u, f) {
      assert Balanced(log, m, u, f);
      AppendDead(log, id, e, m, u, f);
    }
  }

  /** Appending a tombstone without charging it leaves its size uncharged. */
  lemma LeaveUncharged(log: Log, id: FileId, e: Entry, m: Mem, threshold: nat, u: map<FileId, nat>)
    requires MemOk(log, m, threshold, u)
    ensures MemOk(Appended(log, id, e), m, threshold, u[id := Uncharged(u, id) + Size(e)])
  {
    var log', u' := Appended(log, id, e), u[id := Uncharged(u, id) + Size(e)];
    forall k | k in m.indices ensures SoundAt(log', k, m.indices[k]) {
      AppendSound(log, id, e, k, m.indices[k]);
    }
    forall f | StateOf(m, f).state != Compacting ensures Balanced(log', m, u', f) {
      assert Balanced(log, m, u, f);
      AppendDead(log, id, e, m, u, f);
    }
  }

  lemma InsertSound(log: Log, id: FileId, e: Entry, indices: map<Bytes, Dir>)
    requires Sound(log, indices) && e.kind == SET
    ensures Sound(Appended(log, id, e), indices[e.key := Dir(Size(e), Location(id, Total(RecordsOf(log, id))))])
  {
    RecordAtAppend(RecordsOf(log, id), e, Total(RecordsOf(log, id)));
    forall k | k in indices && k != e.key ensures SoundAt(Appended(log, id, e), k, indices[k]) {
      AppendSound(log, id, e, k, indices[k]);
    }
  }

  lemma InsertBytes(rs: seq<Entry>, id: FileId, e: Entry, indices: map<Bytes, Dir>, d: Dir)
    requires e.key !in indices && d.loc == Location(id, Total(rs))
    ensures LiveBytes(rs + [e], id, indices[e.key := d]) == LiveBytes(rs, id, indices) + Size(e)
  {
    LiveBytesInsert(rs, id, indices, e.key, d);
    LiveBytesAppend(rs, e, id, indices[e.key := d]);
  }

  lemma InsertBalances(log: Log, id: FileId, e: Entry, m: Mem, u: map<FileId, nat>, f: FileId)
    requires e.key !in m.indices && Balanced(log, m, u, f)
    ensures var d := Dir(Size(e), Location(id, Total(RecordsOf(log, id))));
            Balanced(Appended(log, id, e), m.(indices := m.indices[e.key := d]), u, f)
  {
    hide Total, LiveBytes;
    var d := Dir(Size(e), Location(id, Total(RecordsOf(log, id))));
    if f == id {
      TotalAppend(RecordsOf(log, id), e);
      InsertBytes(RecordsOf(log, id), id, e, m.indices, d);
    } else {
      LiveBytesInsert(RecordsOf(log, f), f, m.indices, e.key, d);
    }
  }

  /** Appending a Set and pointing its key there keeps everything: the new bytes are live. */
  lemma InsertKeeps(log: Log, id: FileId, e: Entry, m: Mem, threshold: nat, u: map<FileId, nat>)
    requires MemOk(log, m, threshold, u) && e.kind == SET && e.key !in m.indices
    ensures var d := Dir(Size(e), Location(id, Total(RecordsOf(log, id))));
            MemOk(Appended(log, id, e), m.(indices := m.indices[e.key := d]), threshold, u)
  {
    hide Total, Balanced, SoundAt;
    var d := Dir(Size(e), Location(id, Total(RecordsOf(log, id))));
    var log', m' := Appended(log, id, e), m.(indices := m.indices[e.key := d]);
    InsertSound(log, id, e, m.indices);
    forall f | StateOf(m', f).state != Compacting ensures Balanced(log', m', u, f) {
      InsertBalances(log, id, e, m, u, f);
    }
  }

  // ---------------------------------------------------------------- whole updates

  /** What HandlePut leaves uncharged: the tombstone that removed a key. */
  function PublishUncharged(m: Mem, loc: Location, key: Bytes, isDelete: bool, size: nat, u: map<FileId, nat>): (u': map<FileId, nat>)
  {
    if isDelete && key in m.indices then u[loc.id := Uncharged(u, loc.id) + size] else u
  }

  /** HandlePut's update moves its own key only, and its status says whether the key was there. */
  lemma PublishEffect(m: Mem, threshold: nat, loc: Location, key: Bytes, isDelete: bool, size: nat)
    ensures var (status, m') := Publish(m, threshold, loc, key, isDelete, size);
            && m'.indices == (if isDelete then m.indices - {key} else m.indices[key := Dir(size, loc)])
            && status == (if isDelete && key !in m.indices then NotFound else Ok)
            && (forall g :: StateOf(m', g).state == Compacting <==> StateOf(m, g).state == Compacting)
  {
    assert key !in m.indices ==> m.indices - {key} == m.indices;
    if key in m.indices {
      ChargeEffect(m, threshold, m.indices[key].loc.id, m.indices[key].entrySize);
      assert (m.indices - {key})[key := Dir(size, loc)] == m.indices[key := Dir(size, loc)];
    } else {
      ChargeEffect(m, threshold, loc.id, size);
    }
  }

  /** HandlePut's update after an append keeps the index sound, the queue exact and every file in
      balance. */
  lemma PublishKeeps(log: Log, id: FileId, e: Entry, m: Mem, threshold: nat, u: map<FileId, nat>)
    requires MemOk(log, m, threshold, u) && e.kind in {SET, DELETE}
    ensures var loc := Location(id, Total(RecordsOf(log, id)));
            var m' := Publish(m, threshold, loc, e.key, e.kind == DELETE, Size(e)).1;
            MemOk(Appended(log, id, e), m', threshold, PublishUncharged(m, loc, e.key, e.kind == DELETE, Size(e), u))
  {
    var m1 := Supersede(m, threshold, e.key);
    var loc := Location(id, Total(RecordsOf(log, id)));
    var m' := Publish(m, threshold, loc, e.key, e.kind == DELETE, Size(e)).1;
    if e.kind == DELETE && e.key !in m.indices {
      ChargeDead(log, id, e, m, threshold, u);
    } else {
      SupersedeKeeps(log, m, threshold, u, e.key);
      if e.kind == SET {
        assert m' == m1.(indices := m1.indices[e.key := Dir(Size(e), loc)]);
        InsertKeeps(log, id, e, m1, threshold, u);
      } else {
        LeaveUncharged(log, id, e, m1, threshold, u);
      }
    }
  }

  /** All index entries lie below loc: what replaying in ascending order guarantees. */
  ghost predicate Below(indices: map<Bytes, Dir>, loc: Location)
  {
    forall k :: k in indices ==> indices[k].loc.Less(loc)
  }

  /** Every sound index entry lies below the end of the last file. */
  lemma SoundBelowEnd(log: Log, id: FileId, indices: map<Bytes, Dir>)
    requires Sound(log, indices) && IsLast(log, id)
    ensures Below(indices, Location(id, Total(RecordsOf(log, id))))
  {
    forall k | k in indices ensures indices[k].loc.Less(Location(id, Total(RecordsOf(log, id)))) {
      assert SoundAt(log, k, indices[k]);
      var d := indices[k];
      var rs := RecordsOf(log, d.loc.id);
      var i := RecordAtIndex(rs, d.loc.offset);
      OffsetMonotone(rs, i, |rs|);
      assert rs[..|rs|] == rs;
    }
  }

  /** Replaying a record behind everything replayed so far never meets an index entry at or above
      it, and moves its own key only. */
  lemma RecoverEffect(m: Mem, threshold: nat, loc: Location, kind: byte, key: Bytes, size: nat)
    requires Below(m.indices, loc) && kind in {SET, DELETE}
    ensures var m' := Recover(m, threshold, loc, kind, key, size);
            && m' == (if kind == SET
                      then var m1 := Supersede(m, threshold, key); m1.(indices := m1.indices[key := Dir(size, loc)])
                      else Supersede(Charge(m, threshold, loc.id, size), threshold, key))
            && m'.indices == (if kind == SET then m.indices[key := Dir(size, loc)] else m.indices - {key})
            && (forall g :: StateOf(m', g).state == Compacting <==> StateOf(m, g).state == Compacting)
  {
    assert key !in m.indices ==> m.indices - {key} == m.indices;
    assert (m.indices - {key})[key := Dir(size, loc)] == m.indices[key := Dir(size, loc)];
  }

  /** Replaying a record keeps every invariant, with nothing left uncharged: recovery charges every
      tombstone. */
  lemma RecoverKeeps(log: Log, id: FileId, e: Entry, m: Mem, threshold: nat, u: map<FileId, nat>)
    requires MemOk(log, m, threshold, u) && e.kind in {SET, DELETE} && IsLast(log, id)
    ensures var loc := Location(id, Total(RecordsOf(log, id)));
            Below(m.indices, loc)
            && MemOk(Appended(log, id, e), Recover(m, threshold, loc, e.kind, e.key, Size(e)), threshold, u)
  {
    var loc := Location(id, Total(RecordsOf(log, id)));
    SoundBelowEnd(log, id, m.indices);
    RecoverEffect(m, threshold, loc, e.kind, e.key, Size(e));
    if e.kind == SET {
      SupersedeKeeps(log, m, threshold, u, e.key);
      InsertKeeps(log, id, e, Supersede(m, threshold, e.key), threshold, u);
    } else {
      ChargeDead(log, id, e, m, threshold, u);
      SupersedeKeeps(Appended(log, id, e), Charge(m, threshold, id, Size(e)), threshold, u, e.key);
    }
  }

  /** HandlePut charges the bytes of the record it supersedes to that record's file, those of a tombstone
      for an absent key to the tombstone's, and nothing else. */
  lemma PublishCharges(m: Mem, threshold: nat, loc: Location, key: Bytes, isDelete: bool, size: nat)
    ensures var m' := Publish(m, threshold, loc, key, isDelete, size).1;
            var dead := if key in m.indices then Some((m.indices[key].loc.id, m.indices[key].entrySize))
                        else if isDelete then Some((loc.id, size)) else None;
            forall f ::
              var n := if dead.Some? && dead.value.0 == f then dead.value.1 else 0;
              && StateOf(m', f).free == StateOf(m, f).free + n
              && ((dead.Some? && dead.value.0 == f) || StateOf(m', f) == StateOf(m, f))
  {
  }

  /** The publish of a copy, in every memory. A deleted key stays absent. An entry at or above the copy's
      location stays, and the copy's bytes are dead in its own file, which is not queued for them. An
      entry below moves to the copy. */
  lemma PublishCopyCases(m: Mem, loc: Location, key: Bytes, size: nat)
    ensures var m' := PublishCopy(m, loc, key, size);
            && m'.tasks == m.tasks
            && (key !in m.indices ==> m' == m)
            && (key in m.indices && !m.indices[key].loc.Less(loc) ==>
                  && m'.indices == m.indices
                  && StateOf(m', loc.id).free == StateOf(m, loc.id).free + size
                  && StateOf(m', loc.id).state == StateOf(m, loc.id).state
                  && forall f :: f != loc.id ==> StateOf(m', f) == StateOf(m, f))
            && (key in m.indices && m.indices[key].loc.Less(loc) ==>
                  && m'.states == m.states
                  && m'.indices.Keys == m.indices.Keys && m'.indices[key] == Dir(size, loc)
                  && forall k :: k in m.indices && k != key ==> m'.indices[k] == m.indices[k])
  {
  }

  /** Replaying a record below its key's index entry leaves the index alone and charges the record's own
      bytes to its file; an entry below it is superseded, and charged to the entry's. */
  lemma RecoverCases(m: Mem, threshold: nat, loc: Location, kind: byte, key: Bytes, size: nat)
    requires kind in {SET, DELETE}
    ensures var m' := Recover(m, threshold, loc, kind, key, size);
            && (key in m.indices && loc.Less(m.indices[key].loc) ==> m' == Charge(m, threshold, loc.id, size))
            && (key in m.indices && !loc.Less(m.indices[key].loc) ==>
                  && m'.indices == (if kind == SET then m.indices[key := Dir(size, loc)] else m.indices - {key})
                  && var d := m.indices[key];
                     forall f :: StateOf(m', f).free == StateOf(m, f).free + (if f == d.loc.id then d.entrySize else 0)
                                                        + (if kind == DELETE && f == loc.id then size else 0))
            && (key !in m.indices ==>
                  if kind == SET then m' == m.(indices := m.indices[key := Dir(size, loc)])
                  else m'.indices == m.indices
                       && forall f :: StateOf(m', f).free == StateOf(m, f).free + if f == loc.id then size else 0)
  {
    assert key !in m.indices ==> m.indices - {key} == m.indices;
  }

  lemma PublishCopyEffect(m: Mem, loc: Location, key: Bytes, size: nat)
    requires key in m.indices && m.indices[key].loc.Less(loc)
    ensures PublishCopy(m, loc, key, size) == m.(indices := m.indices[key := Dir(size, loc)])
  {
  }

  /** Unpointing a key of the file being compacted, which is exempt from the balance. */
  lemma UnlinkCompacting(log: Log, f: FileId, m: Mem, threshold: nat, u: map<FileId, nat>, key: Bytes)
    requires MemOk(log, m, threshold, u) && StateOf(m, f).state == Compacting
    requires key in m.indices && m.indices[key].loc.id == f
    ensures MemOk(log, m.(indices := m.indices - {key}), threshold, u)
  {
    var m1 := m.(indices := m.indices - {key});
    forall g | StateOf(m1, g).state != Compacting ensures Balanced(log, m1, u, g) {
      assert Balanced(log, m, u, g);
      assert SoundAt(log, key, m.indices[key]);
      LiveBytesUnlink(log, g, m.indices, key);
    }
  }

  /** Moving a live record out of the file being compacted keeps every invariant: its old bytes are
      in the one file that is exempt from the balance, its new bytes are live. */
  lemma CopyKeeps(log: Log, f: FileId, id: FileId, e: Entry, m: Mem, threshold: nat, u: map<FileId, nat>)
    requires MemOk(log, m, threshold, u) && e.kind == SET
    requires StateOf(m, f).state == Compacting && e.key in m.indices && m.indices[e.key].loc.id == f
    requires m.indices[e.key].loc.Less(Location(id, Total(RecordsOf(log, id))))
    ensures MemOk(Appended(log, id, e), PublishCopy(m, Location(id, Total(RecordsOf(log, id))), e.key, Size(e)), threshold, u)
  {
    var d := Dir(Size(e), Location(id, Total(RecordsOf(log, id))));
    PublishCopyEffect(m, d.loc, e.key, Size(e));
    UnlinkCompacting(log, f, m, threshold, u, e.key);
    InsertKeeps(log, id, e, m.(indices := m.indices - {e.key}), threshold, u);
    assert (m.indices - {e.key})[e.key := d] == m.indices[e.key := d];
  }

  /** Forgetting a compacted file that nothing points into keeps every invariant of the others. */
  lemma ForgetKeeps(log: Log, f: FileId, m: Mem, threshold: nat, u: map<FileId, nat>)
    requires MemOk(log, m, threshold, u) && StateOf(m, f).state == Compacting
    requires forall k :: k in m.indices ==> m.indices[k].loc.id != f
    ensures MemOk(Removed(log, f), m.(states := m.states - {f}), threshold, u - {f})
  {
    var m' := m.(states := m.states - {f});
    forall k | k in m'.indices ensures SoundAt(Removed(log, f), k, m'.indices[k]) {
      assert SoundAt(log, k, m.indices[k]);
    }
    forall g | StateOf(m', g).state != Compacting ensures Balanced(Removed(log, f), m', u - {f}, g) {
      if g == f {
        assert RecordsOf(Removed(log, f), f) == [];
      } else {
        assert Balanced(log, m, u, g);
      }
    }
  }
}

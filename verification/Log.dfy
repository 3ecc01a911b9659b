/** The history a store leaves in its data files, and what replaying it must give.

    A log maps each data file to the records packed in it. Everything here is independent of how
    the store or recovery computes its index: `Replayed` says which index a log stands for. */
module Log {
  import opened Basics
  import opened RecordFormat

  type Log = map<FileId, seq<Entry>>

  // The i-th record of file id.
  datatype Pos = Pos(id: FileId, i: nat)
  {
    predicate Less(other: Pos)
    {
      if id != other.id then id < other.id else i < other.i
    }
  }

  predicate At(log: Log, p: Pos)
  {
    p.id in log && p.i < |log[p.id]|
  }

  function Rec(log: Log, p: Pos): (e: Entry)
    requires At(log, p)
  {
    log[p.id][p.i]
  }

  function LocOf(log: Log, p: Pos): (loc: Location)
    requires At(log, p)
  {
    Location(p.id, Offset(log[p.id], p.i))
  }

  function DirOf(log: Log, p: Pos): (d: Dir)
    requires At(log, p)
  {
    Dir(Size(Rec(log, p)), LocOf(log, p))
  }

  /** No other record with the same key comes later in the log. */
  ghost predicate Newest(log: Log, p: Pos)
  {
    At(log, p) && forall q :: At(log, q) && Rec(log, q).key == Rec(log, p).key ==> q == p || q.Less(p)
  }

  ghost predicate Winner(log: Log, p: Pos)
  {
    Newest(log, p) && Rec(log, p).kind == SET
  }

  ghost function Positions(log: Log): (ps: set<Pos>)
    ensures forall p :: p in ps <==> At(log, p)
  {
    set id, i | id in log.Keys && 0 <= i < |log[id]| :: Pos(id, i)
  }

  lemma WinnerUnique(log: Log, p: Pos, q: Pos)
    requires Newest(log, p) && Newest(log, q) && Rec(log, p).key == Rec(log, q).key
    ensures p == q
  {
  }

  ghost function WinnerOf(log: Log, k: Bytes): (p: Pos)
    requires exists p :: Winner(log, p) && Rec(log, p).key == k
    ensures Winner(log, p) && Rec(log, p).key == k
  {
    var p :| Winner(log, p) && Rec(log, p).key == k;
    p
  }

  /** For each key whose newest record is a Set: where that record is. */
  ghost function Winners(log: Log): (w: map<Bytes, Pos>)
    ensures forall p :: Winner(log, p) ==> Rec(log, p).key in w && w[Rec(log, p).key] == p
    ensures forall k :: k in w ==> Winner(log, w[k]) && Rec(log, w[k]).key == k
  {
    var keys := set p | p in Positions(log) && Winner(log, p) :: Rec(log, p).key;
    map k | k in keys :: WinnerOf(log, k)
  }

  /** The index a log stands for. */
  ghost function Replayed(log: Log): (m: map<Bytes, Dir>)
    ensures m.Keys == Winners(log).Keys
    ensures forall k :: k in m ==> m[k] == DirOf(log, Winners(log)[k])
  {
    var w := Winners(log);
    map k | k in w :: DirOf(log, w[k])
  }

  function RecordsOf(log: Log, id: FileId): (rs: seq<Entry>)
  {
    if id in log then log[id] else []
  }

  function Appended(log: Log, id: FileId, e: Entry): (log': Log)
  {
    log[id := RecordsOf(log, id) + [e]]
  }

  /** The location behind the last record of file id. */
  function EndOf(log: Log, id: FileId): (loc: Location)
  {
    Location(id, Total(RecordsOf(log, id)))
  }

  /** The file that takes a record of n bytes: the active one if it fits there, else the next. */
  function Target(log: Log, active: FileId, n: nat): (id: FileId)
  {
    if Total(RecordsOf(log, active)) + n <= MAX_FILE_BYTES then active else active + 1
  }

  /** No file of the log comes after id: the place where records are appended. */
  predicate IsLast(log: Log, id: FileId)
  {
    forall f :: f in log ==> f <= id
  }

  lemma AppendedPositions(log: Log, id: FileId, e: Entry)
    requires IsLast(log, id)
    ensures var log' := Appended(log, id, e);
            var top := Pos(id, |RecordsOf(log, id)|);
            && At(log', top) && Rec(log', top) == e && !At(log, top)
            && DirOf(log', top) == Dir(Size(e), Location(id, Total(RecordsOf(log, id))))
            && (forall p :: At(log', p) <==> p == top || At(log, p))
            && (forall p :: At(log, p) ==> p.Less(top) && Rec(log', p) == Rec(log, p) && DirOf(log', p) == DirOf(log, p))
  {
    var rs := RecordsOf(log, id);
    var log' := Appended(log, id, e);
    assert log'[id][..|rs|] == rs;
    forall p | At(log, p)
      ensures DirOf(log', p) == DirOf(log, p)
    {
      assert log'[p.id][..p.i] == log[p.id][..p.i];
    }
  }

  lemma AppendedNewest(log: Log, id: FileId, e: Entry)
    requires IsLast(log, id)
    ensures var log' := Appended(log, id, e);
            var top := Pos(id, |RecordsOf(log, id)|);
            && Newest(log', top)
            && (forall p :: p != top ==> (Newest(log', p) <==> Newest(log, p) && Rec(log, p).key != e.key))
  {
    AppendedPositions(log, id, e);
    var log' := Appended(log, id, e);
    var top := Pos(id, |RecordsOf(log, id)|);
    forall p | p != top
      ensures Newest(log', p) <==> Newest(log, p) && Rec(log, p).key != e.key
    {
      if Newest(log, p) && Rec(log, p).key != e.key {
        forall q | At(log', q) && Rec(log', q).key == Rec(log', p).key ensures q == p || q.Less(p) {
          assert At(log, q);
        }
      }
      if Newest(log', p) {
        assert At(log', top);
        forall q | At(log, q) && Rec(log, q).key == Rec(log, p).key ensures q == p || q.Less(p) {
          assert At(log', q);
        }
      }
    }
  }

  lemma AppendedWinner(log: Log, id: FileId, e: Entry, k: Bytes)
    requires IsLast(log, id) && e.kind in {SET, DELETE}
    ensures var w, w' := Winners(log), Winners(Appended(log, id, e));
            if k != e.key then (k in w' <==> k in w) && (k in w ==> w'[k] == w[k])
            else if e.kind == SET then k in w' && w'[k] == Pos(id, |RecordsOf(log, id)|)
            else k !in w'
  {
    AppendedPositions(log, id, e);
    AppendedNewest(log, id, e);
    var log' := Appended(log, id, e);
    var top := Pos(id, |RecordsOf(log, id)|);
    var w, w' := Winners(log), Winners(log');
    if k == e.key {
      if e.kind == SET {
        assert Winner(log', top);
      } else if k in w' {
        WinnerUnique(log', top, w'[k]);
      }
    } else if k in w {
      assert Winner(log', w[k]);
    } else if k in w' {
      assert Winner(log, w'[k]);
    }
  }

  lemma AppendedReplayedAt(log: Log, id: FileId, e: Entry, k: Bytes)
    requires IsLast(log, id) && e.kind in {SET, DELETE}
    ensures var m, m' := Replayed(log), Replayed(Appended(log, id, e));
            if k != e.key then (k in m' <==> k in m) && (k in m ==> m'[k] == m[k])
            else if e.kind == SET then k in m' && m'[k] == Dir(Size(e), Location(id, Total(RecordsOf(log, id))))
            else k !in m'
  {
    AppendedWinner(log, id, e, k);
    AppendedPositions(log, id, e);
    var w := Winners(log);
    if k in w { assert At(log, w[k]); }
  }

  /** Appending a record at the end changes the index at its own key only: a Set moves the key
      there, a Delete drops it. */
  lemma AppendedReplayed(log: Log, id: FileId, e: Entry)
    requires IsLast(log, id) && e.kind in {SET, DELETE}
    ensures Replayed(Appended(log, id, e))
         == if e.kind == SET
            then Replayed(log)[e.key := Dir(Size(e), Location(id, Total(RecordsOf(log, id))))]
            else Replayed(log) - {e.key}
  {
    var d := Dir(Size(e), Location(id, Total(RecordsOf(log, id))));
    SameAfterUpdate(Replayed(log), Replayed(Appended(log, id, e)), e.key, if e.kind == SET then Some(d) else None) by {
      forall k { AppendedReplayedAt(log, id, e, k); }
    }
  }

  lemma SameAfterUpdate<K, V>(m: map<K, V>, m': map<K, V>, key: K, v: Option<V>)
    requires forall k :: k != key ==> (k in m' <==> k in m) && (k in m ==> m'[k] == m[k])
    requires if v.Some? then key in m' && m'[key] == v.value else key !in m'
    ensures m' == if v.Some? then m[key := v.value] else m - {key}
  {
  }

  // ---------------------------------------------------------------- removing a file

  function Removed(log: Log, f: FileId): (log': Log)
  {
    log - {f}
  }

  /** The tombstone p in the files `gone` is all that keeps its key deleted: it is the key's newest
      record, and the newest one outside these files is the Set q. */
  ghost predicate Hides(log: Log, gone: set<FileId>, p: Pos, q: Pos)
  {
    && Newest(log, p) && p.id in gone && Rec(log, p).kind == DELETE
    && Winner(log - gone, q) && Rec(log - gone, q).key == Rec(log, p).key
  }

  /** Dropping these files would bring a deleted key back. */
  ghost predicate ResurrectsAny(log: Log, gone: set<FileId>)
  {
    exists p, q :: Hides(log, gone, p, q)
  }

  /** Dropping file f would. */
  ghost predicate Resurrects(log: Log, f: FileId)
  {
    ResurrectsAny(log, {f})
  }

  lemma RemovedNewest(log: Log, f: FileId, p: Pos)
    requires p.id != f
    ensures Newest(log, p) ==> Newest(Removed(log, f), p)
    ensures At(Removed(log, f), p) <==> At(log, p)
    ensures At(log, p) ==> Rec(Removed(log, f), p) == Rec(log, p) && DirOf(Removed(log, f), p) == DirOf(log, p)
  {
    var log' := Removed(log, f);
    if Newest(log, p) {
      forall q | At(log', q) && Rec(log', q).key == Rec(log', p).key ensures q == p || q.Less(p) {
        assert At(log, q);
      }
    }
  }

  /** Some record of a key is the newest one. */
  lemma {:induction false} NewestExists(log: Log, p: Pos) returns (top: Pos)
    requires At(log, p)
    ensures Newest(log, top) && Rec(log, top).key == Rec(log, p).key
    ensures top == p || p.Less(top)
  {
    var rest := set q | q in Positions(log) && p.Less(q);
    top := p;
    while exists q :: q in rest && Rec(log, q).key == Rec(log, p).key && top.Less(q)
      invariant At(log, top) && Rec(log, top).key == Rec(log, p).key && (top == p || p.Less(top))
      invariant forall q :: q in rest ==> At(log, q)
      invariant forall q :: At(log, q) && top.Less(q) ==> q in rest
      decreases rest
    {
      var q :| q in rest && Rec(log, q).key == Rec(log, p).key && top.Less(q);
      top := q;
      rest := rest - {q};
    }
  }

  lemma RemovedWinners(log: Log, f: FileId)
    requires forall p :: At(log, p) ==> Rec(log, p).kind in {SET, DELETE}
    requires forall p :: Winner(log, p) ==> p.id != f
    ensures forall k :: k in Winners(log) ==> k in Winners(Removed(log, f)) && Winners(Removed(log, f))[k] == Winners(log)[k]
    ensures (forall k :: k in Winners(Removed(log, f)) ==> k in Winners(log)) <==> !Resurrects(log, f)
  {
    var log' := Removed(log, f);
    var w, w' := Winners(log), Winners(log');
    forall k | k in w ensures k in w' && w'[k] == w[k] {
      RemovedNewest(log, f, w[k]);
      assert Winner(log', w[k]);
    }
    if !Resurrects(log, f) {
      forall k | k in w' ensures k in w {
        var q := w'[k];
        RemovedNewest(log, f, q);
        var p := NewestExists(log, q);
        var hides, wins := Hides(log, {f}, p, q), Winner(log, p);
        if p.id == f { assert false; }
        RemovedNewest(log, f, p);
        WinnerUnique(log', p, q);
      }
    } else {
      var p, q :| Hides(log, {f}, p, q);
      var k := Rec(log, p).key;
      assert k in w';
      if k in w { WinnerUnique(log, p, w[k]); }
    }
  }

  /** Removing a file that holds no live record keeps the replayed index exactly when no tombstone
      in it still hides an older Set. */
  lemma RemovedReplayed(log: Log, f: FileId)
    requires forall p :: At(log, p) ==> Rec(log, p).kind in {SET, DELETE}
    requires forall p :: Winner(log, p) ==> p.id != f
    ensures Replayed(Removed(log, f)) == Replayed(log) <==> !Resurrects(log, f)
  {
    RemovedWinners(log, f);
    var w, w' := Winners(log), Winners(Removed(log, f));
    forall k | k in w ensures k in w' && DirOf(Removed(log, f), w'[k]) == DirOf(log, w[k]) {
      RemovedNewest(log, f, w[k]);
    }
    if Resurrects(log, f) {
      var k :| k in w' && k !in w;
      assert k in Replayed(Removed(log, f)) && k !in Replayed(log);
    } else {
      SameMap(Replayed(log), Replayed(Removed(log, f)));
    }
  }

  lemma SameMap<K, V>(a: map<K, V>, b: map<K, V>)
    requires forall k :: k in a ==> k in b && b[k] == a[k]
    requires forall k :: k in b ==> k in a
    ensures a == b
  {
  }

  /** The oldest file hides nothing: whatever its tombstones deleted came before them. */
  lemma OldestNeverResurrects(log: Log, f: FileId)
    requires forall g :: g in log ==> f <= g
    ensures !Resurrects(log, f)
  {
    if Resurrects(log, f) {
      var p, q :| Hides(log, {f}, p, q);
      RemovedNewest(log, f, q);
      assert false;
    }
  }

  /** Re-appending a live record elsewhere does not change which deleted keys f hides. */
  lemma CopyKeepsResurrects(log: Log, id: FileId, p0: Pos, f: FileId)
    requires IsLast(log, id) && f != id && Winner(log, p0)
    ensures Resurrects(Appended(log, id, Rec(log, p0)), f) <==> Resurrects(log, f)
  {
    var e := Rec(log, p0);
    var log' := Appended(log, id, e);
    assert Removed(log', f) == Appended(Removed(log, f), id, e);
    forall p, q
      ensures Hides(log', {f}, p, q) <==> Hides(log, {f}, p, q)
    {
      CopyKeepsHides(log, id, p0, f, p, q);
    }
    if Resurrects(log, f) {
      var p, q :| Hides(log, {f}, p, q);
      assert Hides(log', {f}, p, q);
    }
  }

  lemma CopyKeepsHides(log: Log, id: FileId, p0: Pos, f: FileId, p: Pos, q: Pos)
    requires IsLast(log, id) && f != id && Winner(log, p0)
    ensures Hides(Appended(log, id, Rec(log, p0)), {f}, p, q) <==> Hides(log, {f}, p, q)
  {
    var e := Rec(log, p0);
    var log' := Appended(log, id, e);
    var top := Pos(id, |RecordsOf(log, id)|);
    AppendedPositions(log, id, e);
    AppendedNewest(log, id, e);
    assert Removed(log', f) == Appended(Removed(log, f), id, e);
    assert RecordsOf(Removed(log, f), id) == RecordsOf(log, id);
    AppendedPositions(Removed(log, f), id, e);
    AppendedNewest(Removed(log, f), id, e);
    hide Newest, Appended, RecordsOf, DirOf;
    if Hides(log, {f}, p, q) && Rec(log, p).key == e.key {
      WinnerUnique(log, p, p0);
    }
    if Hides(log', {f}, p, q) && Rec(log', p).key == e.key {
      WinnerUnique(log', p, top);
    }
  }

  // ---------------------------------------------------------------- moving live records and dropping files

  /** The index entries are where replaying the log has them; the log may bring back more keys. */
  ghost predicate Points(log: Log, indices: map<Bytes, Dir>)
  {
    forall k :: k in indices ==> k in Replayed(log) && indices[k] == Replayed(log)[k]
  }

  /** A record of a key that is not live. */
  predicate DeadAt(log: Log, live: set<Bytes>, p: Pos)
  {
    At(log, p) && Rec(log, p).key !in live
  }

  /** The records of all keys that are not live are the same, but for those in the files `gone`. */
  ghost predicate SameDead(a: Log, b: Log, live: set<Bytes>, gone: set<FileId>)
  {
    forall p :: (DeadAt(b, live, p) <==> DeadAt(a, live, p) && p.id !in gone)
             && (DeadAt(b, live, p) ==> Rec(b, p) == Rec(a, p))
  }

  lemma AppendKeepsDead(a: Log, b: Log, live: set<Bytes>, gone: set<FileId>, id: FileId, e: Entry)
    requires SameDead(a, b, live, gone) && IsLast(b, id) && e.key in live
    ensures SameDead(a, Appended(b, id, e), live, gone)
  {
    AppendedPositions(b, id, e);
    forall p ensures DeadAt(Appended(b, id, e), live, p) <==> DeadAt(b, live, p) {}
  }

  lemma RemoveKeepsDead(a: Log, b: Log, live: set<Bytes>, gone: set<FileId>, f: FileId)
    requires SameDead(a, b, live, gone)
    ensures SameDead(a, Removed(b, f), live, gone + {f})
  {
    forall p ensures DeadAt(Removed(b, f), live, p) <==> DeadAt(b, live, p) && p.id != f {}
  }

  lemma RemoveKeepsPoints(log: Log, f: FileId, indices: map<Bytes, Dir>)
    requires Points(log, indices) && forall k :: k in indices ==> indices[k].loc.id != f
    ensures Points(Removed(log, f), indices)
  {
    forall k | k in indices ensures k in Replayed(Removed(log, f)) && indices[k] == Replayed(Removed(log, f))[k] {
      var p := Winners(log)[k];
      assert indices[k] == DirOf(log, p);
      RemovedNewest(log, f, p);
      assert Winner(Removed(log, f), p);
    }
  }

  /** When live records have only been moved and files dropped, replaying gives the index of the live
      keys exactly when no dropped tombstone hides a Set in a file that stays. */
  lemma ReplayAfterDrop(a: Log, b: Log, before: map<Bytes, Dir>, after: map<Bytes, Dir>, gone: set<FileId>)
    requires forall p :: At(a, p) ==> Rec(a, p).kind in {SET, DELETE}
    requires Replayed(a) == before && Points(b, after) && after.Keys == before.Keys
    requires SameDead(a, b, before.Keys, gone)
    ensures Replayed(b) == after <==> !ResurrectsAny(a, gone)
  {
    if ResurrectsAny(a, gone) {
      var p, q :| Hides(a, gone, p, q);
      HiddenKeyReturns(a, b, before, gone, p, q);
    } else if Replayed(b) != after {
      SomethingHides(a, b, before, after, gone);
    }
  }

  lemma WinsInside(a: Log, b: Log, live: set<Bytes>, gone: set<FileId>, q: Pos)
    requires SameDead(a, b, live, gone) && Winner(a - gone, q) && Rec(a - gone, q).key !in live
    ensures Winner(b, q) && Rec(b, q) == Rec(a - gone, q)
  {
    assert DeadAt(a, live, q) && DeadAt(b, live, q);
    forall r | At(b, r) && Rec(b, r).key == Rec(a - gone, q).key ensures r == q || r.Less(q) {
      assert DeadAt(b, live, r);
      assert At(a - gone, r);
    }
  }

  lemma HiddenKeyReturns(a: Log, b: Log, before: map<Bytes, Dir>, gone: set<FileId>, p: Pos, q: Pos)
    requires Replayed(a) == before && SameDead(a, b, before.Keys, gone) && Hides(a, gone, p, q)
    ensures Rec(a, p).key !in before && Rec(a, p).key in Replayed(b)
  {
    hide SameDead;
    var k := Rec(a, p).key;
    if k in before { WinnerUnique(a, p, Winners(a)[k]); }
    WinsInside(a, b, before.Keys, gone, q);
    assert k in Winners(b);
  }

  lemma WinsOutside(a: Log, b: Log, live: set<Bytes>, gone: set<FileId>, q: Pos)
    requires SameDead(a, b, live, gone) && Winner(b, q) && Rec(b, q).key !in live
    ensures At(a, q) && Rec(a, q) == Rec(b, q) && Winner(a - gone, q) && Rec(a - gone, q) == Rec(b, q)
  {
    assert DeadAt(b, live, q);
    forall r | At(a - gone, r) && Rec(a - gone, r).key == Rec(b, q).key ensures r == q || r.Less(q) {
      assert DeadAt(a, live, r);
      assert DeadAt(b, live, r);
    }
  }

  lemma TombstoneIsGone(a: Log, b: Log, live: set<Bytes>, gone: set<FileId>, p: Pos, q: Pos)
    requires SameDead(a, b, live, gone) && Winner(b, q) && Newest(a, p) && q.Less(p)
    requires Rec(a, p).key == Rec(b, q).key && Rec(b, q).key !in live
    ensures p.id in gone
  {
    assert DeadAt(a, live, p);
    assert DeadAt(b, live, p) <==> p.id !in gone;
  }

  lemma SomethingHides(a: Log, b: Log, before: map<Bytes, Dir>, after: map<Bytes, Dir>, gone: set<FileId>)
    requires forall p :: At(a, p) ==> Rec(a, p).kind in {SET, DELETE}
    requires Replayed(a) == before && Points(b, after) && after.Keys == before.Keys && Replayed(b) != after
    requires SameDead(a, b, before.Keys, gone)
    ensures ResurrectsAny(a, gone)
  {
    var k := MoreReplayed(b, after);
    var q := Winners(b)[k];
    hide SameDead, Points, Newest;
    WinsOutside(a, b, before.Keys, gone, q);
    var p := NewestExists(a, q);
    assert !Winner(a, p) by { assert k !in Replayed(a); }
    TombstoneIsGone(a, b, before.Keys, gone, p, q);
    assert Hides(a, gone, p, q);
  }

  lemma MoreReplayed(log: Log, indices: map<Bytes, Dir>) returns (k: Bytes)
    requires Points(log, indices) && Replayed(log) != indices
    ensures k in Winners(log) && k !in indices
  {
    if forall k :: k in Replayed(log) ==> k in indices {
      SameMap(indices, Replayed(log));
      assert false;
    }
    k :| k in Replayed(log) && k !in indices;
  }
}

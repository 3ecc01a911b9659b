/** Compacting all queued files in ascending order, as DBImpl::Compact() does after sorting them. */
module Sweeping {
  import opened Basics
  import opened RecordFormat
  import opened RecordScan
  import opened Log
  import opened Accounting
  import opened Store
  import opened Compaction
  import opened Metadata
  import opened Runs

  /** The first n files compacted. */
  function Sweep(s: Store, ids: seq<FileId>, n: nat): (s': Store)
    requires n <= |ids|
  {
    if n == 0 then s else Compact(Sweep(s, ids, n - 1), ids[n - 1])
  }

  /** Each of the first n compactions is safe when its turn comes. */
  ghost predicate SafeUpTo(s: Store, ids: seq<FileId>, n: nat)
    requires n <= |ids|
  {
    forall i :: 0 <= i < n ==> Safe(Sweep(s, ids, i), ids[i])
  }

  ghost predicate AllSafe(s: Store, ids: seq<FileId>)
  {
    SafeUpTo(s, ids, |ids|)
  }

  /** The files can be compacted: they exist, are not queued, and each comes once, in order. */
  ghost predicate Ready(s: Store, ids: seq<FileId>)
  {
    Ascending(ids) && forall f :: f in ids ==> f in s.log && f !in s.mem.tasks
  }

  function Elements(ids: seq<FileId>): (fs: set<FileId>)
  {
    set f | f in ids
  }

  /** The state after n files: a reader sees the same, and the files up to the old active one are
      those that were there without the n compacted ones. */
  ghost predicate Swept(env: Env, s: Store, t: Store, ids: seq<FileId>, n: nat)
    requires n <= |ids|
  {
    && Inv(env, t) && View(env, t) == View(env, s)
    && s.active <= t.active && t.mem.tasks == s.mem.tasks && t.mem.indices.Keys == s.mem.indices.Keys
    && (forall g :: g in s.log && g !in ids[..n] ==> g in t.log)
    && (forall g :: g in t.log ==> g > s.active || (g in s.log && g !in ids[..n]))
  }

  /** A compaction hides no other sealed file's records from its scan, and reveals none: what it moves, it
      moves to the active file or above. */
  lemma CompactKeepsBlind(env: Env, s: Store, f: FileId, g: FileId)
    requires Inv(env, s) && f in s.log && f !in s.mem.tasks && g != f && g < s.active
    ensures Blind(Compact(s, f), g) <==> Blind(s, g)
  {
    hide Inv, Compact;
    CompactMoves(env, s, f);
    var a, b := s.mem.indices, Compact(s, f).mem.indices;
    forall k | k in a && (a[k].loc.id == g || b[k].loc.id == g) ensures b[k] == a[k] {}
  }

  lemma NextUntouched(ids: seq<FileId>, n: nat)
    requires Ascending(ids) && n < |ids|
    ensures ids[n] !in ids[..n] && ids[..n + 1] == ids[..n] + [ids[n]]
  {
    forall i | 0 <= i < n ensures ids[i] != ids[n] {}
  }

  lemma SweepStep(env: Env, s: Store, t: Store, ids: seq<FileId>, n: nat)
    requires n < |ids| && Ready(s, ids) && Swept(env, s, t, ids, n) && Safe(t, ids[n]) && s.active in s.log && IsLast(s.log, s.active)
    ensures ids[n] in t.log && ids[n] !in t.mem.tasks
    ensures Swept(env, s, Compact(t, ids[n]), ids, n + 1)
  {
    hide Inv, View, Compact, Safe;
    NextUntouched(ids, n);
    assert ids[n] in ids;
    CompactSparesOthers(env, t, ids[n]);
    CompactKeepsInv(env, t, ids[n]);
    CompactKeepsView(env, t, ids[n]);
  }

  lemma LastIs(env: Env, s: Store)
    requires Inv(env, s)
    ensures s.active in s.log && IsLast(s.log, s.active)
  {
  }

  lemma SafePrefix(s: Store, ids: seq<FileId>, n: nat)
    requires 0 < n <= |ids| && SafeUpTo(s, ids, n)
    ensures SafeUpTo(s, ids, n - 1) && Safe(Sweep(s, ids, n - 1), ids[n - 1])
    ensures Sweep(s, ids, n) == Compact(Sweep(s, ids, n - 1), ids[n - 1])
  {
    hide Safe, Compact;
  }

  lemma SweepStart(env: Env, s: Store, ids: seq<FileId>)
    requires Inv(env, s)
    ensures Swept(env, s, Sweep(s, ids, 0), ids, 0)
  {
    hide View, MemOk;
    assert ids[..0] == [];
  }

  /** Compacting files that are safe when their turn comes changes nothing a reader sees. */
  lemma {:induction false} SweepKeeps(env: Env, s: Store, ids: seq<FileId>, n: nat)
    requires Inv(env, s) && Ready(s, ids) && n <= |ids| && SafeUpTo(s, ids, n)
    ensures Swept(env, s, Sweep(s, ids, n), ids, n)
  {
    hide Swept, SafeUpTo, Ready, Inv, Compact, Safe, Sweep;
    if n > 0 {
      SafePrefix(s, ids, n);
      SweepKeeps(env, s, ids, n - 1);
      LastIs(env, s);
      SweepStep(env, s, Sweep(s, ids, n - 1), ids, n - 1);
    } else {
      SweepStart(env, s, ids);
    }
  }

  lemma SweptInv(env: Env, s: Store, t: Store, ids: seq<FileId>, n: nat)
    requires n <= |ids| && Swept(env, s, t, ids, n)
    ensures Inv(env, t) && s.active <= t.active && t.mem.indices.Keys == s.mem.indices.Keys
  {
    hide Inv;
  }

  lemma {:induction false} SweepOnDisk(env: Env, s: Store, ids: seq<FileId>, n: nat)
    requires Inv(env, s) && Ready(s, ids) && n <= |ids| && SafeUpTo(s, ids, n) && Durable(s)
    ensures OnDisk(s.log, Sweep(s, ids, n), Elements(ids[..n]))
  {
    hide Swept, SafeUpTo, Ready, Inv, Compact, Safe, Sweep, OnDisk, Durable;
    if n > 0 {
      var t, f := Sweep(s, ids, n - 1), ids[n - 1];
      SafePrefix(s, ids, n);
      SweepOnDisk(env, s, ids, n - 1);
      SweepKeeps(env, s, ids, n - 1);
      SweptInv(env, s, t, ids, n - 1);
      LastIs(env, s);
      SweepStep(env, s, t, ids, n - 1);
      CompactOnDisk(env, s.log, t, f, Elements(ids[..n - 1]));
      ElementsStep(ids, n);
    } else {
      DurableOnDisk(s);
      SweepStart(env, s, ids);
      assert Elements(ids[..0]) == {};
      assert Sweep(s, ids, 0) == s by { NoSweep(s, ids); }
    }
  }

  lemma NoSweep(s: Store, ids: seq<FileId>)
    ensures Sweep(s, ids, 0) == s && SafeUpTo(s, ids, 0)
  {
  }

  lemma ElementsStep(ids: seq<FileId>, n: nat)
    requires 0 < n <= |ids|
    ensures Elements(ids[..n]) == Elements(ids[..n - 1]) + {ids[n - 1]}
  {
    assert ids[..n] == ids[..n - 1] + [ids[n - 1]];
  }

  /** After any number of them the files replay to the index exactly when no tombstone in the files
      swept so far hides a Set in a file that is still there. */
  lemma SweepKeepsDurable(env: Env, s: Store, ids: seq<FileId>, n: nat)
    requires Inv(env, s) && Ready(s, ids) && n <= |ids| && SafeUpTo(s, ids, n) && Durable(s)
    ensures Durable(Sweep(s, ids, n)) <==> !ResurrectsAny(s.log, Elements(ids[..n]))
  {
    hide Inv, View, Safe, SafeUpTo, Sweep, Points, SameDead, Replayed, ResurrectsAny;
    var t := Sweep(s, ids, n);
    SweepOnDisk(env, s, ids, n);
    SweepKeeps(env, s, ids, n);
    FilesAre(env, s);
    AllKinds(env, s);
    ReplayAfterDrop(s.log, t.log, s.mem.indices, t.mem.indices, Elements(ids[..n]));
  }

  /** No file below a compacted one stays: then whatever its tombstones deleted is gone with it. */
  predicate LowerClosed(log: Log, ids: seq<FileId>)
  {
    forall f, g :: f in ids && g in log && g < f ==> g in ids
  }

  lemma LowestResurrectNothing(log: Log, ids: seq<FileId>)
    requires LowerClosed(log, ids)
    ensures !ResurrectsAny(log, Elements(ids))
  {
    forall p, q | Newest(log, p) && p.id in Elements(ids) && At(log - Elements(ids), q)
      ensures Rec(log - Elements(ids), q).key != Rec(log, p).key
    {
      assert At(log, q);
    }
  }

  /** That is what the ascending order is for: when the lowest files of the store are swept, a crash
      after any number of them is harmless. */
  lemma CrashDuringSweep(env: Env, s: Store, ids: seq<FileId>, n: nat)
    requires Inv(env, s) && Ready(s, ids) && n <= |ids| && SafeUpTo(s, ids, n) && Durable(s) && LowerClosed(s.log, ids)
    ensures Durable(Sweep(s, ids, n)) && View(env, Sweep(s, ids, n)) == View(env, s)
  {
    hide Inv, View, Durable, SafeUpTo, Sweep, ResurrectsAny;
    forall f, g | f in ids[..n] && g in s.log && g < f ensures g in ids[..n] {
      assert f in ids;
      AscendsBelow(ids, n, f, g);
    }
    LowestResurrectNothing(s.log, ids[..n]);
    SweepKeepsDurable(env, s, ids, n);
    SweepKeeps(env, s, ids, n);
  }

  lemma SameAscent(ids: seq<FileId>, i: nat, j: nat)
    requires Ascending(ids) && i < |ids| && j < |ids|
    ensures ids[i] < ids[j] <==> i < j
  {
  }

  lemma AscendsBelow(ids: seq<FileId>, n: nat, f: FileId, g: FileId)
    requires Ascending(ids) && n <= |ids| && f in ids[..n] && g in ids && g < f
    ensures g in ids[..n]
  {
    var i :| 0 <= i < n && ids[i] == f;
    var j :| 0 <= j < |ids| && ids[j] == g;
    SameAscent(ids, j, i);
    assert ids[..n][j] == g;
  }

  /** What the n-th round of the loop finds and leaves. */
  lemma SweepSteps(env: Env, s: Store, ids: seq<FileId>, n: nat)
    requires Inv(env, s) && Ready(s, ids) && AllSafe(s, ids) && n <= |ids|
    ensures Sweep(s, ids, 0) == s
    ensures n < |ids| ==>
              var t := Sweep(s, ids, n);
              && Inv(env, t) && ids[n] in t.log && ids[n] !in t.mem.tasks && Safe(t, ids[n])
              && Sweep(s, ids, n + 1) == Compact(t, ids[n])
  {
    hide Inv, View, Compact, Safe;
    SweepKeeps(env, s, ids, n);
    if n < |ids| {
      LastIs(env, s);
      SweepStep(env, s, Sweep(s, ids, n), ids, n);
    }
  }

  /** After the loop the files are gone and nothing else has changed. */
  lemma SweepDone(env: Env, s: Store, ids: seq<FileId>)
    requires Inv(env, s) && Ready(s, ids) && AllSafe(s, ids)
    ensures var t := Sweep(s, ids, |ids|);
            && Inv(env, t) && View(env, t) == View(env, s) && t.mem.tasks == s.mem.tasks
            && (forall f :: f in ids ==> f !in t.log)
            && (Durable(s) ==> (Durable(t) <==> !ResurrectsAny(s.log, Elements(ids))))
  {
    hide Inv, View, Durable, Sweep, SafeUpTo, ResurrectsAny;
    SweepKeeps(env, s, ids, |ids|);
    assert ids[..|ids|] == ids;
    LastIs(env, s);
    if Durable(s) { SweepKeepsDurable(env, s, ids, |ids|); }
  }

  // ---------------------------------------------------------------- the polled queue

  /** The queue can be compacted: its files, in order, are safe when their turn comes. */
  ghost predicate Sweepable(s: Store)
  {
    forall ids :: Ascending(ids) && (forall f :: f in ids <==> f in s.mem.tasks) ==> AllSafe(s.(mem := Polled(s.mem)), ids)
  }

  lemma SafeExtend(s: Store, ids: seq<FileId>, n: nat)
    requires 0 < n <= |ids|
    ensures SafeUpTo(s, ids, n) <==> SafeUpTo(s, ids, n - 1) && Safe(Sweep(s, ids, n - 1), ids[n - 1])
    ensures Sweep(s, ids, n) == Compact(Sweep(s, ids, n - 1), ids[n - 1])
  {
    hide Safe, Compact;
  }

  lemma SealedIsSafe(s: Store, f: FileId)
    requires f < s.active
    ensures Safe(s, f) <==> !Blind(s, f)
  {
  }

  /** Sweeping files changes nothing about which records the scan of a later one cannot see. */
  lemma {:induction false} SweepKeepsBlind(env: Env, s: Store, ids: seq<FileId>, n: nat, j: nat)
    requires Inv(env, s) && Ready(s, ids) && n <= j < |ids| && SafeUpTo(s, ids, n) && ids[j] < s.active
    ensures Blind(Sweep(s, ids, n), ids[j]) <==> Blind(s, ids[j])
  {
    assert Ascending(ids);
    hide Swept, Ready, Inv, Compact, Blind, SafeUpTo, Sweep, Safe;
    if n == 0 {
      NoSweep(s, ids);
    } else {
      var t, f := Sweep(s, ids, n - 1), ids[n - 1];
      SafePrefix(s, ids, n);
      SweepKeepsBlind(env, s, ids, n - 1, j);
      SweepKeeps(env, s, ids, n - 1);
      SweptInv(env, s, t, ids, n - 1);
      LastIs(env, s);
      SweepStep(env, s, t, ids, n - 1);
      CompactKeepsBlind(env, t, f, ids[j]);
    }
  }

  lemma SealedNext(env: Env, s: Store, ids: seq<FileId>, n: nat)
    requires Inv(env, s) && Ready(s, ids) && n < |ids| && SafeUpTo(s, ids, n) && ids[n] < s.active
    ensures Safe(Sweep(s, ids, n), ids[n]) <==> !Blind(s, ids[n])
  {
    hide Swept, Ready, Inv, Blind, SafeUpTo, Sweep, Safe;
    SweepKeeps(env, s, ids, n);
    SweptInv(env, s, Sweep(s, ids, n), ids, n);
    SealedIsSafe(Sweep(s, ids, n), ids[n]);
    SweepKeepsBlind(env, s, ids, n, n);
  }

  /** Sealed files are safe when their turn comes exactly if they are at the start: if none of them holds
      a live record that fills it. */
  lemma {:induction false} SealedSafe(env: Env, s: Store, ids: seq<FileId>, n: nat)
    requires Inv(env, s) && Ready(s, ids) && n <= |ids| && forall i :: 0 <= i < n ==> ids[i] < s.active
    ensures SafeUpTo(s, ids, n) <==> forall i :: 0 <= i < n ==> !Blind(s, ids[i])
  {
    hide Ready, Inv, Blind, SafeUpTo, Sweep, Safe;
    if n == 0 {
      NoSweep(s, ids);
    } else {
      SealedSafe(env, s, ids, n - 1);
      SafeExtend(s, ids, n);
      if SafeUpTo(s, ids, n - 1) { SealedNext(env, s, ids, n - 1); }
    }
  }

  /** Polling the queue leaves its files ready to be swept. */
  lemma PolledReady(env: Env, s: Store, ids: seq<FileId>)
    requires Inv(env, s) && Ascending(ids) && forall f :: f in ids <==> f in s.mem.tasks
    ensures var t := s.(mem := Polled(s.mem));
            && Ready(t, ids) && Inv(env, t) && View(env, t) == View(env, s) && (Durable(t) <==> Durable(s))
            && (Sweepable(s) ==> AllSafe(t, ids))
  {
    hide AllSafe;
    BackgroundRefines(env, s, DoPoll);
  }

  /** There is only one order in which a set of files ascends. */
  lemma {:induction false} AscendingUnique(a: seq<FileId>, b: seq<FileId>)
    requires Ascending(a) && Ascending(b) && forall f :: f in a <==> f in b
    ensures a == b
    decreases |a|
  {
    if a == [] {
      assert forall i :: 0 <= i < |b| ==> b[i] in b;
    } else {
      assert a[0] in a;
      assert b != [];
      assert b[0] in b;
      assert a[0] == b[0];
      forall f ensures f in a[1..] <==> f in b[1..] {
        TailElements(a, f);
        TailElements(b, f);
      }
      AscendingUnique(a[1..], b[1..]);
    }
  }

  lemma TailElements(a: seq<FileId>, f: FileId)
    requires Ascending(a) && a != []
    ensures f in a[1..] <==> f in a && f != a[0]
  {
  }

  lemma {:induction false} InOrder(tasks: seq<FileId>) returns (ids: seq<FileId>)
    ensures Ascending(ids) && forall f :: f in ids <==> f in tasks
  {
    if tasks == [] {
      ids := [];
    } else {
      var rest := InOrder(tasks[1..]);
      InsertElements(rest, tasks[0]);
      ids := Insert(rest, tasks[0]);
    }
  }

  lemma OneOrder(s: Store, ids: seq<FileId>)
    requires Ascending(ids) && forall f :: f in ids <==> f in s.mem.tasks
    ensures Sweepable(s) <==> AllSafe(s.(mem := Polled(s.mem)), ids)
  {
    hide AllSafe;
    if AllSafe(s.(mem := Polled(s.mem)), ids) {
      forall other | Ascending(other) && forall f :: f in other <==> f in s.mem.tasks
        ensures AllSafe(s.(mem := Polled(s.mem)), other)
      {
        AscendingUnique(ids, other);
      }
    }
  }

  lemma QueueBelow(env: Env, s: Store, ids: seq<FileId>)
    requires Inv(env, s) && Ascending(ids) && forall f :: f in ids <==> f in s.mem.tasks
    ensures forall f :: f in ids ==> f <= s.active
    ensures s.active in ids ==> ids[|ids| - 1] == s.active && forall i :: 0 <= i < |ids| - 1 ==> ids[i] < s.active
  {
    assert Scheduled(s.mem, env.threshold);
    if s.active in ids {
      assert ids[|ids| - 1] in ids;
    }
  }

  lemma PolledBlind(s: Store, f: FileId)
    ensures Blind(s.(mem := Polled(s.mem)), f) <==> Blind(s, f)
  {
  }

  lemma SealedPart(env: Env, s: Store, ids: seq<FileId>, n: nat)
    requires Inv(env, s) && Ready(s, ids) && n <= |ids|
    requires forall i :: 0 <= i < |ids| ==> (ids[i] < s.active <==> i < n)
    ensures SafeUpTo(s, ids, n) <==> forall f :: f in ids && f < s.active ==> !Blind(s, f)
  {
    hide Inv, Ready, Blind, SafeUpTo;
    SealedSafe(env, s, ids, n);
    if forall i :: 0 <= i < n ==> !Blind(s, ids[i]) {
      forall f | f in ids && f < s.active ensures !Blind(s, f) {
        var i :| 0 <= i < |ids| && ids[i] == f;
      }
    } else {
      var i :| 0 <= i < n && Blind(s, ids[i]);
      assert ids[i] in ids;
    }
  }

  /** In order, the active file comes last, and all others are sealed. */
  lemma SweepableInOrder(env: Env, s: Store, ids: seq<FileId>)
    requires Inv(env, s) && Ready(s, ids)
    requires forall f :: f in ids ==> f <= s.active
    requires s.active in ids ==> ids[|ids| - 1] == s.active && forall i :: 0 <= i < |ids| - 1 ==> ids[i] < s.active
    ensures AllSafe(s, ids) <==>
              && (forall f :: f in ids && f < s.active ==> !Blind(s, f))
              && (s.active in ids ==> Safe(Sweep(s, ids, |ids| - 1), s.active))
  {
    hide Inv, Ready, Blind, Safe, Sweep, SafeUpTo;
    if s.active in ids {
      SealedPart(env, s, ids, |ids| - 1);
      SafeExtend(s, ids, |ids|);
    } else {
      forall i | 0 <= i < |ids| ensures ids[i] < s.active { assert ids[i] in ids; }
      SealedPart(env, s, ids, |ids|);
    }
  }

  /** When the queue can be compacted: no sealed file in it holds a live record that fills it, and if the
      active file is in it, that file is safe once the others are gone. */
  lemma SweepableIs(env: Env, s: Store, ids: seq<FileId>)
    requires Inv(env, s) && Ascending(ids) && forall f :: f in ids <==> f in s.mem.tasks
    ensures Sweepable(s) <==>
              && (forall f :: f in s.mem.tasks && f < s.active ==> !Blind(s, f))
              && (s.active in s.mem.tasks ==> Safe(Sweep(s.(mem := Polled(s.mem)), ids, |ids| - 1), s.active))
  {
    hide Inv, Ascending, Blind, Safe, Sweep, AllSafe, Sweepable, Polled, Ready;
    var t := s.(mem := Polled(s.mem));
    PolledReady(env, s, ids);
    OneOrder(s, ids);
    QueueBelow(env, s, ids);
    SweepableInOrder(env, t, ids);
    forall f ensures Blind(t, f) <==> Blind(s, f) { PolledBlind(s, f); }
  }

  /** A queue without the active file can be compacted exactly if no file in it holds a live record that
      fills it to its last byte. */
  lemma SealedSweepable(env: Env, s: Store)
    requires Inv(env, s) && s.active !in s.mem.tasks
    ensures Sweepable(s) <==> forall f :: f in s.mem.tasks ==> !Blind(s, f)
  {
    hide Inv, Blind, Safe, Sweep, Sweepable;
    var ids := InOrder(s.mem.tasks);
    SweepableIs(env, s, ids);
    QueueBelow(env, s, ids);
    forall f | f in s.mem.tasks ensures f < s.active { assert f in ids; }
  }
}

/** Two writers of one key at the same time. HandlePut appends its record and publishes it in two critical
    sections (src/db_impl.cc), and nothing keeps the order of the second to that of the first. */
module TwoWriters {
  import opened Basics
  import opened RecordFormat
  import opened Log
  import opened Accounting
  import opened Store

  function Published(env: Env, m: Mem, loc: Location, key: Bytes, value: Bytes): (m': Mem)
  {
    Publish(m, env.threshold, loc, key, value == [], SizeOf(env.Record(key, value))).1
  }

  /** The record of a is appended before that of b; they are published in this order or in the other. */
  function TwoPuts(env: Env, s: Store, key: Bytes, a: Bytes, b: Bytes, inOrder: bool): (s': Store)
  {
    var (s1, locA) := Append(s, env.Record(key, a));
    var (s2, locB) := Append(s1, env.Record(key, b));
    s2.(mem := if inOrder then Published(env, Published(env, s2.mem, locA, key, a), locB, key, b)
               else Published(env, Published(env, s2.mem, locB, key, b), locA, key, a))
  }

  /** A Put of the value, or a Delete. */
  function Stored<V>(m: map<Bytes, V>, key: Bytes, value: Bytes, v: V): (m': map<Bytes, V>)
  {
    if value == [] then m - {key} else m[key := v]
  }

  /** Both records fit a file. */
  predicate Fit(env: Env, key: Bytes, a: Bytes, b: Bytes)
  {
    |key| < 0x100 && Size(env.Record(key, a)) <= MAX_FILE_BYTES && Size(env.Record(key, b)) <= MAX_FILE_BYTES
  }

  /** What publishing does to the index. */
  lemma PublishedIs(env: Env, m: Mem, loc: Location, key: Bytes, value: Bytes)
    requires Size(env.Record(key, value)) <= MAX_FILE_BYTES
    ensures Published(env, m, loc, key, value).indices == Stored(m.indices, key, value, Dir(Size(env.Record(key, value)), loc))
  {
    PublishEffect(m, env.threshold, loc, key, value == [], Size(env.Record(key, value)));
  }

  /** Published in order, the two writes are two Puts one after the other. */
  lemma InOrderIsInTurn(env: Env, s: Store, key: Bytes, a: Bytes, b: Bytes)
    requires Fit(env, key, a, b)
    ensures var s', t := TwoPuts(env, s, key, a, b, true), Put(env, Put(env, s, key, a).1, key, b).1;
            s'.log == t.log && s'.active == t.active && s'.mem == t.mem
  {
    hide Published, Put, Append;
    var first, last := env.Record(key, a), env.Record(key, b);
    PutIs(env, s, key, a);
    PutIs(env, Put(env, s, key, a).1, key, b);
    AppendMem(s, first);
    AppendMem(Append(s, first).0, last);
    AppendSame(Append(s, first).0, Put(env, s, key, a).1, last);
  }

  lemma AppendSame(s: Store, t: Store, e: Entry)
    requires s.log == t.log && s.active == t.active
    ensures Append(s, e).0.log == Append(t, e).0.log && Append(s, e).0.active == Append(t, e).0.active && Append(s, e).1 == Append(t, e).1
  {
  }

  /** Published in the other order, the index is that of the first alone, and the files the same. */
  lemma OutOfOrder(env: Env, s: Store, key: Bytes, a: Bytes, b: Bytes)
    requires Fit(env, key, a, b)
    ensures var s', t := TwoPuts(env, s, key, a, b, false), TwoPuts(env, s, key, a, b, true);
            && s'.log == t.log && s'.active == t.active
            && s'.mem.indices == Put(env, s, key, a).1.mem.indices
  {
    hide Published, Publish, Append, PublishUncharged;
    var (s1, locA) := Append(s, env.Record(key, a));
    var (s2, locB) := Append(s1, env.Record(key, b));
    PublishedIs(env, s2.mem, locB, key, b);
    PublishedIs(env, Published(env, s2.mem, locB, key, b), locA, key, a);
    PublishedIs(env, s.mem, locA, key, a);
    PutIs(env, s, key, a);
    AppendMem(s, env.Record(key, a));
    AppendMem(s1, env.Record(key, b));
    StoredTwice(s.mem.indices, key, b, a, Dir(Size(env.Record(key, b)), locB), Dir(Size(env.Record(key, a)), locA));
  }

  lemma AppendMem(s: Store, e: Entry)
    ensures Append(s, e).0.mem == s.mem
  {
  }

  lemma PutIs(env: Env, s: Store, key: Bytes, value: Bytes)
    requires Size(env.Record(key, value)) <= MAX_FILE_BYTES
    ensures var t, s1 := Put(env, s, key, value).1, Append(s, env.Record(key, value));
            t.log == s1.0.log && t.active == s1.0.active && t.mem == Published(env, s.mem, s1.1, key, value)
  {
  }

  lemma StoredTwice<V>(m: map<Bytes, V>, key: Bytes, first: Bytes, second: Bytes, v: V, w: V)
    ensures Stored(Stored(m, key, first, v), key, second, w) == Stored(m, key, second, w)
  {
  }

  lemma PutLog(env: Env, s: Store, key: Bytes, a: Bytes, b: Bytes)
    requires Fit(env, key, a, b)
    ensures var t, t2 := Put(env, s, key, a).1, Put(env, Put(env, s, key, a).1, key, b).1;
            t2.log == Appended(t.log, t2.active, env.Record(key, b))
  {
    PutEffect(env, Put(env, s, key, a).1, key, b);
  }

  lemma FirstPut(env: Env, s: Store, key: Bytes, a: Bytes)
    requires Inv(env, s) && |key| < 0x100 && Size(env.Record(key, a)) <= MAX_FILE_BYTES && env.Lossless()
    ensures var t := Put(env, s, key, a).1;
            Inv(env, t) && (Durable(s) ==> Durable(t)) && View(env, t) == Stored(View(env, s), key, a, a)
  {
    PutKeepsInv(env, s, key, a);
    PutUpdatesView(env, s, key, a);
    if Durable(s) { PutKeepsDurable(env, s, key, a); }
  }

  lemma BothPuts(env: Env, s: Store, key: Bytes, a: Bytes, b: Bytes)
    requires Inv(env, s) && Durable(s) && Fit(env, key, a, b) && env.Lossless()
    ensures var t := Put(env, Put(env, s, key, a).1, key, b).1;
            Durable(t) && View(env, t) == Stored(View(env, s), key, b, b)
  {
    hide Inv, Durable, View, Put;
    FirstPut(env, s, key, a);
    FirstPut(env, Put(env, s, key, a).1, key, b);
    StoredTwice(View(env, s), key, a, b, a, b);
  }

  /** What a reader sees is decided by the order of publishing, and what a reopened store holds by the
      order of appending. They agree exactly when the orders do or both writes are Deletes. */
  lemma TwoWrites(env: Env, s: Store, key: Bytes, a: Bytes, b: Bytes, inOrder: bool)
    requires Inv(env, s) && Durable(s) && Fit(env, key, a, b) && env.Lossless()
    ensures var s', last := TwoPuts(env, s, key, a, b, inOrder), if inOrder then b else a;
            && View(env, s') == Stored(View(env, s), key, last, last)
            && Contents(env, s'.log, Replayed(s'.log)) == Stored(View(env, s), key, b, b)
            && (Durable(s') <==> inOrder || (a == [] && b == []))
  {
    hide Inv, TwoPuts, Put, Contents, Replayed;
    InOrderIsInTurn(env, s, key, a, b);
    BothPuts(env, s, key, a, b);
    if !inOrder {
      OutOfOrder(env, s, key, a, b);
      FirstPut(env, s, key, a);
      ViewOfFirst(env, s, key, a, b);
      IndexOfFirst(env, s, key, a, b);
    }
  }

  lemma ViewOfFirst(env: Env, s: Store, key: Bytes, a: Bytes, b: Bytes)
    requires Inv(env, s) && Fit(env, key, a, b) && env.Lossless()
    ensures var t := Put(env, s, key, a).1;
            Contents(env, Put(env, t, key, b).1.log, t.mem.indices) == View(env, t)
  {
    hide Put, Contents, Balanced, Env.Record;
    var t := Put(env, s, key, a).1;
    FirstPut(env, s, key, a);
    PutLog(env, s, key, a, b);
    ContentsAppended(env, t.log, Put(env, t, key, b).1.active, env.Record(key, b), t.mem.indices);
  }

  /** The index of the first write alone is that of both exactly if both are Deletes. */
  lemma IndexOfFirst(env: Env, s: Store, key: Bytes, a: Bytes, b: Bytes)
    requires Inv(env, s) && Durable(s) && Fit(env, key, a, b) && env.Lossless()
    ensures var t := Put(env, s, key, a).1;
            t.mem.indices == Put(env, t, key, b).1.mem.indices <==> a == [] && b == []
  {
    hide MemOk, Durable, Publish, PublishUncharged, View;
    var t := Put(env, s, key, a).1;
    FirstPut(env, s, key, a);
    PutEffect(env, s, key, a);
    PutEffect(env, t, key, b);
    var x, y := t.mem.indices, Put(env, t, key, b).1.mem.indices;
    assert key in x <==> a != [];
    assert key in y <==> b != [];
    EndsDiffer(env, s, env.Record(key, a), t, Target(t.log, t.active, Size(env.Record(key, b))));
  }

  lemma EndsDiffer(env: Env, s: Store, e: Entry, t: Store, id: FileId)
    requires FilesOk(env, t) && t.active == Target(s.log, s.active, Size(e)) && t.log == Appended(s.log, t.active, e) && id >= t.active
    ensures EndOf(s.log, t.active) != EndOf(t.log, id)
  {
    TotalAppend(RecordsOf(s.log, t.active), e);
  }
}

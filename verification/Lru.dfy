/** The recency list of the caches (include/pedrodb/cache/lru_cache.h): a hash map of heap nodes that
    also sit on a circular doubly linked list, least recently used first. */
module Lru {
  import opened Basics

  // ---------------------------------------------------------------- what the cache computes

  datatype State<K, V> = State(order: seq<K>, values: map<K, V>)

  function Without<K(==)>(s: seq<K>, k: K): (r: seq<K>)
  {
    if s == [] then [] else (if s[0] == k then [] else [s[0]]) + Without(s[1..], k)
  }

  /** k becomes the most recently used key. */
  function Touch<K(==)>(s: seq<K>, k: K): (r: seq<K>)
  {
    Without(s, k) + [k]
  }

  datatype Op<K, V> = GetKey(key: K) | PutKey(key: K, value: V) | RemoveKey(key: K)

  function Step<K(==), V>(s: State<K, V>, op: Op<K, V>): (s': State<K, V>)
  {
    match op
    case GetKey(k) => if k in s.values then State(Touch(s.order, k), s.values) else s
    case PutKey(k, v) => State(Touch(s.order, k), s.values[k := v])
    case RemoveKey(k) => if k in s.values then State(Without(s.order, k), s.values - {k}) else s
  }

  function After<K(==), V>(ops: seq<Op<K, V>>): (s: State<K, V>)
  {
    if ops == [] then State([], map[]) else Step(After(ops[..|ops| - 1]), ops[|ops| - 1])
  }

  /** The value a key was last given and not removed since. */
  function LastPut<K(==), V>(ops: seq<Op<K, V>>, k: K): (v: Option<V>)
  {
    if ops == [] then None
    else
      var op := ops[|ops| - 1];
      if op.key == k && op.PutKey? then Some(op.value)
      else if op.key == k && op.RemoveKey? then None
      else LastPut(ops[..|ops| - 1], k)
  }

  /** The number of the last operation on a key, counting from 1; 0 if there was none. */
  function LastUse<K(==), V>(ops: seq<Op<K, V>>, k: K): (n: nat)
    ensures n <= |ops|
  {
    if ops == [] then 0
    else if ops[|ops| - 1].key == k then |ops| else LastUse(ops[..|ops| - 1], k)
  }

  lemma {:induction false} WithoutElements<K>(s: seq<K>, k: K)
    ensures forall x :: x in Without(s, k) <==> x != k && x in s
  {
    if s != [] {
      WithoutElements(s[1..], k);
      assert forall x :: x in s <==> x == s[0] || x in s[1..];
    }
  }

  lemma WithoutKeeps<K>(s: seq<K>, k: K, x: K)
    requires x in Without(s, k)
    ensures x in s
  {
    WithoutElements(s, k);
  }

  /** The order lists each cached key once, in the order of its last use. */
  ghost predicate ByLastUse<K, V>(ops: seq<Op<K, V>>, order: seq<K>)
  {
    forall i, j :: 0 <= i < j < |order| ==> LastUse(ops, order[i]) < LastUse(ops, order[j])
  }

  lemma {:induction false} WithoutSorted<K, V>(ops: seq<Op<K, V>>, order: seq<K>, k: K)
    requires ByLastUse(ops, order)
    ensures ByLastUse(ops, Without(order, k))
  {
    if order != [] {
      WithoutSorted(ops, order[1..], k);
      var r := Without(order[1..], k);
      forall i | 0 <= i < |r| ensures LastUse(ops, order[0]) < LastUse(ops, r[i]) {
        WithoutKeeps(order[1..], k, r[i]);
        var j :| 0 <= j < |order[1..]| && order[1..][j] == r[i];
        assert order[j + 1] == r[i];
      }
    }
  }

  /** After any sequence of operations the cache holds exactly the last value put, and not removed,
      of each key, and lists the keys from the least to the most recently used. */
  lemma {:induction false} CacheIsRecencyOrdered<K, V>(ops: seq<Op<K, V>>)
    ensures var s := After(ops);
            && (forall k :: k in s.order <==> k in s.values)
            && (forall k :: k in s.values <==> LastPut(ops, k).Some?)
            && (forall k :: k in s.values ==> LastPut(ops, k) == Some(s.values[k]))
            && ByLastUse(ops, s.order)
    decreases |ops|
  {
    if ops != [] {
      var before, op := ops[..|ops| - 1], ops[|ops| - 1];
      CacheIsRecencyOrdered(before);
      var s := After(before);
      WithoutElements(s.order, op.key);
      WithoutSorted(before, s.order, op.key);
      var rest := Without(s.order, op.key);
      forall x | x in rest ensures LastUse(ops, x) == LastUse(before, x) <= |before| {}
      if op.RemoveKey? && op.key !in s.values {
        assert forall x :: x in s.order ==> LastUse(ops, x) == LastUse(before, x);
      }
      if op.GetKey? && op.key !in s.values {
        assert forall x :: x in s.order ==> LastUse(ops, x) == LastUse(before, x);
      }
    }
  }

  // ---------------------------------------------------------------- the heap structure

  class Node<K(0), V(0)> {
    var prev: Node?<K, V>
    var next: Node?<K, V>
    var key: K
    var value: V

    constructor (key: K, value: V)
      ensures this.key == key && this.value == value && prev == null && next == null
    {
      this.key, this.value := key, value;
      prev, next := null, null;
    }
  }

  function Next(n: nat, i: nat): (j: nat)
    requires i < n
    ensures j < n
  {
    if i + 1 == n then 0 else i + 1
  }

  predicate Distinct<T(==)>(s: seq<T>)
  {
    forall i, j :: 0 <= i < j < |s| ==> s[i] != s[j]
  }

  /** Node r[i] and the node after it in the circle point at each other. */
  ghost predicate LinkedAt<K(0), V(0)>(r: seq<Node<K, V>>, i: nat)
    requires i < |r|
    reads r
  {
    r[i].next == r[Next(|r|, i)] && r[Next(|r|, i)].prev == r[i]
  }

  /** The nodes of r are linked in a circle, in both directions. */
  ghost predicate Linked<K(0), V(0)>(r: seq<Node<K, V>>)
    reads r
  {
    forall i :: 0 <= i < |r| ==> LinkedAt(r, i)
  }

  function RemoveAt<T>(s: seq<T>, p: nat): (r: seq<T>)
    requires p < |s|
    ensures |r| == |s| - 1
    ensures forall i :: 0 <= i < |r| ==> r[i] == s[if i < p then i else i + 1]
  {
    s[..p] + s[p + 1..]
  }

  lemma RemovedElements<T>(s: seq<T>, p: nat)
    requires Distinct(s) && p < |s|
    ensures Distinct(RemoveAt(s, p)) && s[p] !in RemoveAt(s, p)
    ensures forall x :: x in RemoveAt(s, p) <==> x in s && x != s[p]
  {
    forall x | x in s && x != s[p] ensures x in RemoveAt(s, p) {
      var i :| 0 <= i < |s| && s[i] == x;
      assert RemoveAt(s, p)[if i < p then i else i - 1] == x;
    }
  }

  function Rotated<T>(s: seq<T>, p: nat): (r: seq<T>)
    requires p < |s|
    ensures |r| == |s|
    ensures forall i :: 0 <= i < |r| ==> r[i] == s[if i < p then i else if i + 1 < |s| then i + 1 else p]
  {
    RemoveAt(s, p) + [s[p]]
  }

  lemma RotatedElements<T>(s: seq<T>, p: nat)
    requires Distinct(s) && p < |s|
    ensures Distinct(Rotated(s, p))
    ensures forall x :: x in Rotated(s, p) <==> x in s
  {
    RemovedElements(s, p);
  }

  /** Takes node r[p] out of the circle. */
  method Unlink<K(0), V(0)>(ptr: Node<K, V>, ghost r: seq<Node<K, V>>, ghost p: nat)
    requires Distinct(r) && Linked(r) && 0 < p < |r| && r[p] == ptr
    modifies r
    ensures Linked(RemoveAt(r, p))
    ensures forall n :: n in r ==> n.key == old(n.key) && n.value == old(n.value)
  {
    assert LinkedAt(r, p) && LinkedAt(r, p - 1);
    ptr.prev.next := ptr.next;
    ptr.next.prev := ptr.prev;
    ghost var q := RemoveAt(r, p);
    forall i | 0 <= i < |q| ensures LinkedAt(q, i) {
      if i < p { assert old(LinkedAt(r, i)); } else { assert old(LinkedAt(r, i + 1)); }
    }
  }

  /** Links ptr in just before the head, at the most recently used end. */
  method LinkBack<K(0), V(0)>(lru: Node<K, V>, ptr: Node<K, V>, ghost r: seq<Node<K, V>>)
    requires Distinct(r) && Linked(r) && r != [] && r[0] == lru && ptr !in r
    modifies r, ptr
    ensures Linked(r + [ptr])
    ensures forall n :: n in r + [ptr] ==> n.key == old(n.key) && n.value == old(n.value)
  {
    assert LinkedAt(r, |r| - 1);
    ptr.prev := lru.prev;
    ptr.next := lru;
    ptr.prev.next := ptr;
    ptr.next.prev := ptr;
    ghost var q := r + [ptr];
    forall i | 0 <= i < |q| ensures LinkedAt(q, i) {
      if i < |r| { assert old(LinkedAt(r, i)); }
    }
  }

  lemma {:induction false} WithoutAt<K>(s: seq<K>, p: nat)
    requires Distinct(s) && p < |s|
    ensures Without(s, s[p]) == RemoveAt(s, p)
    decreases |s|
  {
    var k := s[p];
    if p == 0 {
      assert k !in s[1..];
      WithoutAbsent(s[1..], k);
    } else {
      WithoutAt(s[1..], p - 1);
      assert [s[0]] + RemoveAt(s[1..], p - 1) == RemoveAt(s, p);
    }
  }

  lemma {:induction false} WithoutAbsent<K>(s: seq<K>, k: K)
    requires k !in s
    ensures Without(s, k) == s
  {
    if s != [] {
      assert k !in s[1..];
      WithoutAbsent(s[1..], k);
    }
  }

  /** The keys of the nodes behind the head, in list order. */
  ghost function KeysOf<K(0), V(0)>(r: seq<Node<K, V>>): (ks: seq<K>)
    requires r != []
    reads r
    ensures |ks| == |r| - 1
    ensures forall i :: 0 <= i < |ks| ==> ks[i] == r[i + 1].key
  {
    seq(|r| - 1, i requires 0 <= i < |r| - 1 reads r => r[i + 1].key)
  }

  method SetValue<K(0), V(0)>(ptr: Node<K, V>, value: V, ghost r: seq<Node<K, V>>)
    requires Linked(r)
    modifies ptr`value
    ensures Linked(r) && ptr.value == value
  {
    ptr.value := value;
    forall i | 0 <= i < |r| ensures LinkedAt(r, i) { assert old(LinkedAt(r, i)); }
  }

  /** Moves node r[p] to the most recently used end. */
  method Relink<K(0, ==), V(0)>(lru: Node<K, V>, ptr: Node<K, V>, ghost r: seq<Node<K, V>>, ghost p: nat)
    returns (ghost q: seq<Node<K, V>>)
    requires Distinct(r) && Linked(r) && 0 < p < |r| && r[p] == ptr && r[0] == lru && Distinct(KeysOf(r))
    modifies r
    ensures Distinct(q) && Linked(q) && q != [] && q[0] == lru
    ensures forall n :: n in q <==> n in r
    ensures forall n :: n in r ==> n.key == old(n.key) && n.value == old(n.value)
    ensures KeysOf(q) == Touch(old(KeysOf(r)), ptr.key)
  {
    hide Without, RemoveAt, Linked, Distinct;
    ghost var ks := KeysOf(r);
    WithoutAt(ks, p - 1);
    RemovedElements(r, p);
    RotatedElements(r, p);
    Unlink(ptr, r, p);
    LinkBack(lru, ptr, RemoveAt(r, p));
    q := Rotated(r, p);
    SameKeys(KeysOf(q), Rotated(ks, p - 1));
  }

  lemma SameKeys<K>(a: seq<K>, b: seq<K>)
    requires |a| == |b| && forall i :: 0 <= i < |a| ==> a[i] == b[i]
    ensures a == b
  {
  }

  /** Takes node r[p] off the list for good. */
  method Unlist<K(0, ==), V(0)>(ptr: Node<K, V>, ghost r: seq<Node<K, V>>, ghost p: nat)
    returns (ghost q: seq<Node<K, V>>)
    requires Distinct(r) && Linked(r) && 0 < p < |r| && r[p] == ptr && Distinct(KeysOf(r))
    modifies r
    ensures Distinct(q) && Linked(q) && q != [] && q[0] == r[0]
    ensures forall n :: n in q <==> n in r && n != ptr
    ensures forall n :: n in r ==> n.key == old(n.key) && n.value == old(n.value)
    ensures KeysOf(q) == Without(old(KeysOf(r)), old(ptr.key))
  {
    hide Without, RemoveAt, Linked;
    ghost var ks := KeysOf(r);
    WithoutAt(ks, p - 1);
    RemovedElements(r, p);
    Unlink(ptr, r, p);
    q := RemoveAt(r, p);
    SameKeys(KeysOf(q), RemoveAt(ks, p - 1));
  }

  /** Puts a new node at the most recently used end. */
  method Enlist<K(0, ==), V(0)>(lru: Node<K, V>, ptr: Node<K, V>, ghost r: seq<Node<K, V>>)
    returns (ghost q: seq<Node<K, V>>)
    requires Distinct(r) && Linked(r) && r != [] && r[0] == lru && ptr !in r && ptr.key !in KeysOf(r)
    modifies r, ptr
    ensures Distinct(q) && Linked(q) && q != [] && q[0] == lru
    ensures forall n :: n in q <==> n in r || n == ptr
    ensures forall n :: n in r + [ptr] ==> n.key == old(n.key) && n.value == old(n.value)
    ensures KeysOf(q) == Touch(old(KeysOf(r)), ptr.key)
  {
    ghost var ks := KeysOf(r);
    WithoutAbsent(ks, ptr.key);
    LinkBack(lru, ptr, r);
    q := r + [ptr];
    assert KeysOf(q) == ks + [ptr.key];
  }

  lemma FirstIsKey<K, V>(s: seq<K>, m: map<K, V>)
    requires s != [] && forall k :: k in s ==> k in m
    ensures m != map[]
  {
    assert s[0] in s;
  }

  class LRUCache<K(0, ==), V(0)> {
    const capacity: nat
    const lru: Node<K, V>
    var keys: map<K, Node<K, V>>
    // The circle, from the head on.
    ghost var ring: seq<Node<K, V>>
    ghost var Repr: set<object>

    /** The circle runs through the head and exactly the nodes of the hash map, each once. */
    ghost predicate Valid()
      reads this, Repr
      ensures Valid() ==> this in Repr
    {
      && this in Repr && (forall n :: n in ring ==> n in Repr)
      && ring != [] && ring[0] == lru
      && Distinct(ring) && Linked(ring)
      && (forall k :: k in keys ==> keys[k] in ring && keys[k] != lru && keys[k].key == k)
      && (forall n :: n in ring && n != lru ==> n.key in keys && keys[n.key] == n)
      && (capacity == 0 ==> keys == map[])
    }

    ghost function Abs(): (s: State<K, V>)
      requires Valid()
      reads this, Repr
    {
      State(KeysOf(ring), map k | k in keys :: keys[k].value)
    }

    constructor (capacity: nat)
      ensures Valid() && fresh(Repr) && this.capacity == capacity
      ensures Abs() == State([], map[])
    {
      var key: K := *;
      var value: V := *;
      var head := new Node<K, V>(key, value);
      this.capacity := capacity;
      lru := head;
      keys := map[];
      ring := [head];
      Repr := {this, head};
      new;
      lru.prev, lru.next := lru, lru;
    }

    /** The map and the list have been brought in line with each other again. */
    method SetRing(ghost q: seq<Node<K, V>>, newKeys: map<K, Node<K, V>>, ghost repr: set<object>, ghost abs: State<K, V>)
      requires q != [] && q[0] == lru && Distinct(q) && Linked(q)
      requires this in repr && (forall n :: n in q ==> n in repr)
      requires forall k :: k in newKeys ==> newKeys[k] in q && newKeys[k] != lru && newKeys[k].key == k
      requires forall n :: n in q && n != lru ==> n.key in newKeys && newKeys[n.key] == n
      requires capacity == 0 ==> newKeys == map[]
      requires abs.order == KeysOf(q) && abs.values.Keys == newKeys.Keys
      requires forall k :: k in newKeys ==> newKeys[k].value == abs.values[k]
      modifies this
      ensures Valid() && Repr == repr && ring == q && keys == newKeys && Abs() == abs
    {
      ring, keys, Repr := q, newKeys, repr;
      forall i | 0 <= i < |q| ensures LinkedAt(q, i) { assert old(LinkedAt(q, i)); }
      SameKeys(KeysOf(q), abs.order);
      assert (map k | k in keys :: keys[k].value) == abs.values;
    }

    /** Makes the node of a present key the most recently used one. */
    method MoveToBack(ptr: Node<K, V>)
      requires Valid() && ptr in ring && ptr != lru
      modifies Repr
      ensures Valid() && Repr == old(Repr) && keys == old(keys)
      ensures Abs() == State(Touch(old(Abs()).order, ptr.key), old(Abs()).values)
      ensures ptr in ring && ptr != lru && ptr.key == old(ptr.key)
    {
      hide Distinct, Linked, Touch, KeysOf;
      KeysDistinct();
      ghost var p :| 0 <= p < |ring| && ring[p] == ptr;
      ghost var abs := State(Touch(Abs().order, ptr.key), Abs().values);
      ghost var q := Relink(lru, ptr, ring, p);
      SetRing(q, keys, Repr, abs);
    }

    lemma KeysDistinct()
      requires Valid()
      ensures Distinct(KeysOf(ring))
      ensures forall k :: k in KeysOf(ring) <==> k in keys
    {
      forall i, j | 0 <= i < j < |KeysOf(ring)| ensures KeysOf(ring)[i] != KeysOf(ring)[j] {
        assert ring[i + 1] in ring && ring[j + 1] in ring;
      }
      forall k | k in KeysOf(ring) ensures k in keys {
        var i :| 0 <= i < |KeysOf(ring)| && KeysOf(ring)[i] == k;
        assert ring[i + 1] in ring;
      }
      forall k | k in keys ensures k in KeysOf(ring) {
        var i :| 0 <= i < |ring| && ring[i] == keys[k];
        assert KeysOf(ring)[i - 1] == k;
      }
    }

    /** The value of a present key, which becomes the most recently used. */
    method Get(key: K) returns (value: Option<V>)
      requires Valid()
      modifies Repr
      ensures Valid() && Repr == old(Repr)
      ensures Abs() == Step(old(Abs()), GetKey(key))
      ensures value == if key in old(Abs()).values then Some(old(Abs()).values[key]) else None
    {
      if capacity == 0 || key !in keys {
        return None;
      }
      var ptr := keys[key];
      value := Some(ptr.value);
      MoveToBack(ptr);
    }

    method Drop(ptr: Node<K, V>)
      requires Valid() && ptr in ring && ptr != lru
      modifies Repr
      ensures Valid() && Repr == old(Repr)
      ensures Abs() == State(Without(old(Abs()).order, old(ptr.key)), old(Abs()).values - {old(ptr.key)})
    {
      hide Distinct, Linked, Without, KeysOf;
      KeysDistinct();
      ghost var p :| 0 <= p < |ring| && ring[p] == ptr;
      ghost var abs := State(Without(Abs().order, ptr.key), Abs().values - {ptr.key});
      ghost var q := Unlist(ptr, ring, p);
      SetRing(q, keys - {ptr.key}, Repr, abs);
    }

    /** Drops a key and its node. */
    method Remove(key: K) returns (value: Option<V>)
      requires Valid()
      modifies Repr
      ensures Valid() && Repr == old(Repr)
      ensures Abs() == Step(old(Abs()), RemoveKey(key))
      ensures value == if key in old(Abs()).values then Some(old(Abs()).values[key]) else None
    {
      if capacity == 0 || key !in keys {
        return None;
      }
      var ptr := keys[key];
      value := Some(ptr.value);
      Drop(ptr);
    }

    lemma OnlyHead()
      requires Valid() && keys == map[]
      ensures |ring| == 1
    {
      KeysDistinct();
      if KeysOf(ring) != [] {
        FirstIsKey(KeysOf(ring), keys);
      }
    }

    /** Evict returns at once while any key is cached, and finds no node to evict otherwise: the
        cache is never cut down to its capacity. */
    method Evict()
      requires Valid()
    {
      if keys != map[] {
        return;
      }
      assert LinkedAt(ring, 0);
      OnlyHead();
      if lru.next == lru {
        return;
      }
      assert false;
    }

    method Replace(ptr: Node<K, V>, value: V)
      requires Valid() && ptr in ring && ptr != lru
      modifies Repr
      ensures Valid() && Repr == old(Repr)
      ensures Abs() == State(Touch(old(Abs()).order, old(ptr.key)), old(Abs()).values[old(ptr.key) := value])
    {
      MoveToBack(ptr);
      ghost var order := KeysOf(ring);
      SetValue(ptr, value, ring);
      SameKeys(KeysOf(ring), order);
    }

    method Insert(key: K, value: V)
      requires Valid() && key !in keys && capacity != 0
      modifies Repr
      ensures Valid() && fresh(Repr - old(Repr))
      ensures Abs() == State(Touch(old(Abs()).order, key), old(Abs()).values[key := value])
    {
      KeysDistinct();
      ghost var abs := State(Touch(Abs().order, key), Abs().values[key := value]);
      var ptr := new Node<K, V>(key, value);
      ghost var q := Enlist(lru, ptr, ring);
      SetRing(q, keys[key := ptr], Repr + {ptr}, abs);
    }

    /** Stores a value and makes its key the most recently used. */
    method Put(key: K, value: V)
      requires Valid()
      modifies Repr
      ensures Valid() && fresh(Repr - old(Repr))
      ensures Abs() == if capacity == 0 then old(Abs()) else Step(old(Abs()), PutKey(key, value))
    {
      if capacity == 0 {
        return;
      }
      if key in keys {
        Replace(keys[key], value);
        return;
      }
      if |keys| + 1 == capacity {
        Evict();
      }
      Insert(key, value);
    }
  }
}

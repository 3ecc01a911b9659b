/** The sharded cache between the block cache and the recency lists
    (include/pedrodb/cache/segment_cache.h). */
module Segments {
  import opened Basics
  import opened Lru

  lemma PutStep<K, V>(s: State<K, V>, key: K, value: V)
    ensures Step(s, PutKey(key, value)).values == s.values[key := value]
  {
  }

  lemma GetStep<K, V>(s: State<K, V>, key: K)
    ensures Step(s, GetKey(key)).values == s.values
  {
  }

  class SegmentCache<K(0, ==, !new), V(0)> {
    const hash: K -> nat
    // The capacity of one segment.
    const capacity: nat
    var segments: seq<LRUCache<K, V>>
    ghost var Repr: set<object>

    /** The segment of a key. */
    function Locate(key: K): (i: nat)
      requires segments != []
      reads this
      ensures i < |segments|
    {
      hash(key) % |segments|
    }

    ghost predicate Valid()
      reads this, Repr
      ensures Valid() ==> this in Repr
    {
      && this in Repr && segments != []
      && (forall i :: 0 <= i < |segments| ==> segments[i] in Repr && segments[i].Repr <= Repr && this !in segments[i].Repr)
      && (forall i :: 0 <= i < |segments| ==> segments[i].Valid() && segments[i].capacity == capacity)
      && (forall i, j :: 0 <= i < j < |segments| ==> segments[i].Repr !! segments[j].Repr)
    }

    /** The cached value of a key: what its own segment holds for it. */
    ghost function Lookup(key: K): (v: Option<V>)
      requires Valid()
      reads this, Repr
    {
      var values := segments[Locate(key)].Abs().values;
      if key in values then Some(values[key]) else None
    }

    /** `count` empty segments that share the capacity. */
    constructor (count: nat, capacity: nat, hash: K -> nat)
      requires count > 0
      ensures Valid() && fresh(Repr) && this.capacity == capacity
      ensures forall k :: Lookup(k) == None
    {
      this.hash, this.capacity := hash, capacity;
      var first := new LRUCache<K, V>(capacity);
      segments := [first];
      Repr := {this} + first.Repr;
      new;
      while |segments| < count
        invariant Valid() && fresh(Repr)
        invariant forall i :: 0 <= i < |segments| ==> segments[i].Abs().values == map[]
      {
        SegmentAdd();
      }
    }

    method SegmentAdd()
      requires Valid()
      requires forall i :: 0 <= i < |segments| ==> segments[i].Abs().values == map[]
      modifies this
      ensures Valid() && fresh(Repr - old(Repr)) && |segments| == |old(segments)| + 1
      ensures forall i :: 0 <= i < |segments| ==> segments[i].Abs().values == map[]
    {
      var segment := new LRUCache<K, V>(capacity);
      segments := segments + [segment];
      Repr := Repr + segment.Repr;
    }

    /** A lookup in segment i; the other segments stay as they are. */
    method GetIn(i: nat, key: K) returns (value: Option<V>)
      requires Valid() && i < |segments|
      modifies segments[i].Repr
      ensures Valid() && segments == old(segments) && Repr == old(Repr)
      ensures value == var values := old(segments[i].Abs()).values; if key in values then Some(values[key]) else None
      ensures segments[i].Abs().values == old(segments[i].Abs().values)
      ensures forall j :: 0 <= j < |segments| && j != i ==> segments[j].Abs() == old(segments[j].Abs())
    {
      hide LRUCache.Valid, LRUCache.Abs, Step;
      GetStep(segments[i].Abs(), key);
      value := segments[i].Get(key);
    }

    method PutIn(i: nat, key: K, value: V)
      requires Valid() && i < |segments|
      modifies this`Repr, segments[i].Repr
      ensures Valid() && segments == old(segments) && fresh(Repr - old(Repr))
      ensures segments[i].Abs().values == if capacity == 0 then old(segments[i].Abs().values)
                                          else old(segments[i].Abs().values)[key := value]
      ensures forall j :: 0 <= j < |segments| && j != i ==> segments[j].Abs() == old(segments[j].Abs())
    {
      hide LRUCache.Valid, LRUCache.Abs, Step;
      PutStep(segments[i].Abs(), key, value);
      segments[i].Put(key, value);
      Repr := Repr + segments[i].Repr;
    }

    /** The cached value, or else the supplied one, which is then cached if it could be computed.
        Nothing about any other key changes. */
    method GetOrCompute(key: K, supplier: () -> (Status, V)) returns (status: Status, value: V)
      requires Valid()
      modifies Repr
      ensures Valid() && fresh(Repr - old(Repr))
      ensures old(Lookup(key)).Some? ==> status == Ok && value == old(Lookup(key)).value
      ensures old(Lookup(key)).None? ==> (status, value) == supplier()
      ensures forall k :: k != key ==> Lookup(k) == old(Lookup(k))
      ensures Lookup(key) == if old(Lookup(key)).None? && status == Ok && capacity != 0 then Some(value) else old(Lookup(key))
    {
      var i := Locate(key);
      var hit := GetIn(i, key);
      if hit.Some? {
        return Ok, hit.value;
      }
      var supplied := supplier();
      status, value := supplied.0, supplied.1;
      if status == Ok {
        PutIn(i, key, value);
      }
    }
  }
}

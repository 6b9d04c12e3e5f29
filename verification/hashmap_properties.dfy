/** Laws relating the hash table operations to each other and to the chain
    layout: lookups after `put` and `remove`, where `put` links a new entry,
    and the order `resize` leaves a chain in. */
module HashmapProperties {
  import opened Options
  import opened Chains
  import opened PowerOfTwo
  import opened Hashmaps

  /** After `put(k, v)`, `get(k)` yields `v` and every other key looks up as before. */
  lemma PutThenGet<K, V>(m: Hashmap<K, V>, hash: K -> bv32, k: K, v: V, other: K)
    requires Valid(m, hash)
    ensures Get(Put(m, hash, k, v), hash, k) == Some(v)
    ensures other != k ==> Get(Put(m, hash, k, v), hash, other) == Get(m, hash, other)
    ensures Contains(Put(m, hash, k, v), hash, k)
  {
  }

  /** After `remove(k)`, `get(k)` yields nothing and every other key looks up
      as before. */
  lemma RemoveThenGet<K, V>(m: Hashmap<K, V>, hash: K -> bv32, k: K, other: K)
    requires Valid(m, hash)
    ensures Get(Remove(m, hash, k).table, hash, k) == None
    ensures other != k ==> Get(Remove(m, hash, k).table, hash, other) == Get(m, hash, other)
  {
  }

  /** `put` of a new key links one entry at the end of the chain its hash
      selects, with the hash cached, and touches no other chain. The chains
      are those of the table after the resize check: resized when the load
      factor was reached, the original table otherwise. */
  lemma PutAppendsAtTail<K, V>(m: Hashmap<K, V>, hash: K -> bv32, k: K, v: V)
    requires Valid(m, hash) && k !in Abstract(m)
    ensures var t := if NeedsResize(m) then Resize(m, hash) else m;
      var i := Slot(t, hash, k);
      && Put(m, hash, k, v).buckets == t.buckets[i := t.buckets[i] + [Entry(k, v, hash(k))]]
      && Put(m, hash, k, v).size == m.size + 1
  {
    var t := if NeedsResize(m) then Resize(m, hash) else m;
    var i := Slot(t, hash, k);
    LookupInSlot(t, hash, k);
    assert Locate(t.buckets[i], k, hash(k)).None?;
  }

  /** `put` of a present key replaces the value in the entry where it is: no
      chain of the table after the resize check changes length or key order. */
  lemma PutOverwritesInPlace<K, V>(m: Hashmap<K, V>, hash: K -> bv32, k: K, v: V)
    requires Valid(m, hash) && k in Abstract(m)
    ensures var t := if NeedsResize(m) then Resize(m, hash) else m;
      var i := Slot(t, hash, k);
      var c := t.buckets[i];
      var r := Put(m, hash, k, v);
      && |r.buckets| == |t.buckets|
      && (forall b :: 0 <= b < |t.buckets| && b != i ==> r.buckets[b] == t.buckets[b])
      && |r.buckets[i]| == |c|
      && (forall p :: 0 <= p < |c| ==> r.buckets[i][p] == if c[p].key == k then c[p].(value := v) else c[p])
      && r.size == m.size
  {
    var t := if NeedsResize(m) then Resize(m, hash) else m;
    var i := Slot(t, hash, k);
    var c := t.buckets[i];
    LookupInSlot(t, hash, k);
    var j :| 0 <= j < |c| && c[j].key == k;
    assert c[j] in c;
    assert Locate(c, k, hash(k)).Some?;
  }

  /** One `put` keeps the capacity a power of two and never shrinks it; one
      `remove` leaves it unchanged. */
  lemma PutKeepsPowerOfTwo<K, V>(m: Hashmap<K, V>, hash: K -> bv32, k: K, v: V)
    requires Valid(m, hash)
    ensures IsPowerOfTwo(|Put(m, hash, k, v).buckets|)
    ensures |Put(m, hash, k, v).buckets| >= |m.buckets|
    ensures |Remove(m, hash, k).table.buckets| == |m.buckets|
  {
  }

  /** The mutating calls of the hash table interface. */
  datatype MapOp<K, V> =
    | PutOp(key: K, value: V)
    | RemoveOp(key: K)
    | ClearOp

  function Apply<K(==), V>(m: Hashmap<K, V>, hash: K -> bv32, op: MapOp<K, V>): (r: Hashmap<K, V>)
    requires Valid(m, hash)
    ensures Valid(r, hash)
  {
    match op
    case PutOp(k, v) => Put(m, hash, k, v)
    case RemoveOp(k) => Remove(m, hash, k).table
    case ClearOp => Clear(m, hash)
  }

  /** The table after performing `ops` in order. */
  function Replay<K(==), V>(m: Hashmap<K, V>, hash: K -> bv32, ops: seq<MapOp<K, V>>): (r: Hashmap<K, V>)
    requires Valid(m, hash)
    ensures Valid(r, hash)
    decreases |ops|
  {
    if ops == [] then m else Replay(Apply(m, hash, ops[0]), hash, ops[1..])
  }

  /** Every operation sequence from a table constructed with a power-of-two
      capacity keeps the representation invariant, so the capacity stays a
      power of two, and never shrinks the capacity. */
  lemma {:induction false} ReplayKeepsPowerOfTwo<K, V>(capacity: nat, hash: K -> bv32, ops: seq<MapOp<K, V>>)
    requires IsPowerOfTwo(capacity)
    ensures Valid(New<K, V>(capacity), hash)
    ensures IsPowerOfTwo(|Replay(New<K, V>(capacity), hash, ops).buckets|)
    ensures |Replay(New<K, V>(capacity), hash, ops).buckets| >= capacity
  {
    NewValid<K, V>(capacity, hash);
    ReplayNeverShrinks(New<K, V>(capacity), hash, ops);
  }

  lemma {:induction false} ReplayNeverShrinks<K, V>(m: Hashmap<K, V>, hash: K -> bv32, ops: seq<MapOp<K, V>>)
    requires Valid(m, hash)
    ensures |Replay(m, hash, ops).buckets| >= |m.buckets|
    decreases |ops|
  {
    if ops != [] {
      var n := Apply(m, hash, ops[0]);
      assert |n.buckets| >= |m.buckets|;
      ReplayNeverShrinks(n, hash, ops[1..]);
    }
  }

  // ---------------------------------------------------------------------------
  // Concrete scenarios
  // ---------------------------------------------------------------------------

  /** With any hash: a table of capacity 8 takes "a" -> 1 and "b" -> 2;
      `get("b")` is 2; removing "a" succeeds and leaves "a" absent. */
  method PutGetRemoveScenario(hash: string -> bv32) returns (b: Option<int>, removed: bool, a: Option<int>, size: nat)
    ensures b == Some(2) && removed && a == None && size == 1
  {
    assert PassesCapacityCheck(8);
    var m0 := NewWithCapacity<string, int>(8).value;
    NewValid<string, int>(8, hash);
    var m2 := Put(Put(m0, hash, "a", 1), hash, "b", 2);
    assert "a" != "b";
    b := Get(m2, hash, "b");
    var r := Remove(m2, hash, "a");
    removed := r.ok;
    a := Get(r.table, hash, "a");
    size := r.table.size;
  }

  function Identity(x: bv32): bv32
  {
    x
  }

  /** Under the identity hash on 32-bit keys, keys 1 and 5 share chain 1 of a
      two-chain table. The third `put` reaches the load factor and resizes to
      four chains; chain 1 of the new table lists 5 before 1, the reverse of
      the old link order, because `resize` links each entry at the front. */
  method ResizeReversesChainScenario() returns (before: seq<seq<Entry<bv32, int>>>, after: seq<seq<Entry<bv32, int>>>)
    ensures before == [[], [Entry(1, 10, 1), Entry(5, 50, 5)]]
    ensures |after| == 4
    ensures after[1] == [Entry(5, 50, 5), Entry(1, 10, 1)]
    ensures after[2] == [Entry(2, 20, 2)]
  {
    var m0 := New<bv32, int>(2);
    NewValid<bv32, int>(2, Identity);
    var m1 := Put(m0, Identity, 1, 10);
    FirstPut(m0);
    var m2 := Put(m1, Identity, 5, 50);
    SecondPut(m1);
    before := m2.buckets;
    var m3 := Put(m2, Identity, 2, 20);
    after := m3.buckets;
    ResizeThenAppend(m2);
  }

  lemma FirstPut(m0: Hashmap<bv32, int>)
    requires m0 == New(2) && Valid(m0, Identity)
    ensures Put(m0, Identity, 1, 10).buckets == [[], [Entry(1, 10, 1)]]
    ensures Put(m0, Identity, 1, 10).size == 1
  {
    SmallIndices();
    assert !NeedsResize(m0);
    assert Slot(m0, Identity, 1) == 1;
    PutAppendsAtTail(m0, Identity, 1, 10);
    assert m0.buckets == [[], []];
    var e1 := Entry(1, 10, 1 as bv32);
    assert [] + [e1] == [e1];
    assert m0.buckets[1 := [] + [e1]] == [[], [e1]];
  }

  lemma SecondPut(m1: Hashmap<bv32, int>)
    requires Valid(m1, Identity) && m1.buckets == [[], [Entry(1, 10, 1)]] && m1.size == 1
    ensures Put(m1, Identity, 5, 50).buckets == [[], [Entry(1, 10, 1), Entry(5, 50, 5)]]
    ensures Put(m1, Identity, 5, 50).size == 2
  {
    SmallIndices();
    assert !NeedsResize(m1);
    assert Slot(m1, Identity, 5) == 1;
    assert 5 !in Abstract(m1) by {
      LookupInSlot(m1, Identity, 5);
    }
    PutAppendsAtTail(m1, Identity, 5, 50);
    var e1, e5 := Entry(1, 10, 1 as bv32), Entry(5, 50, 5 as bv32);
    assert [e1] + [e5] == [e1, e5];
    assert m1.buckets[1 := [e1] + [e5]] == [[], [e1, e5]];
  }

  lemma ResizeThenAppend(m2: Hashmap<bv32, int>)
    requires Valid(m2, Identity) && m2.buckets == [[], [Entry(1, 10, 1), Entry(5, 50, 5)]] && m2.size == 2
    ensures |Put(m2, Identity, 2, 20).buckets| == 4
    ensures Put(m2, Identity, 2, 20).buckets[1] == [Entry(5, 50, 5), Entry(1, 10, 1)]
    ensures Put(m2, Identity, 2, 20).buckets[2] == [Entry(2, 20, 2)]
  {
    var e1, e5 := Entry(1, 10, 1 as bv32), Entry(5, 50, 5 as bv32);
    var grown := Resize(m2, Identity);
    FlattenTwo(m2.buckets);
    FilterTwo(e1, e5);
    assert grown.buckets[1] == [e5, e1];
    assert grown.buckets[2] == [];
    assert |grown.buckets| == 4;
    SmallIndices();
    assert !NeedsResize(grown);
    assert Slot(grown, Identity, 2) == 2;
    assert 2 !in Abstract(grown) by {
      LookupInSlot(grown, Identity, 2);
    }
    PutAppendsAtTail(grown, Identity, 2, 20);
  }

  /** The chains the identity hash selects for keys 1, 2 and 5 under capacities 2 and 4. */
  lemma SmallIndices()
    ensures Identity(1) == 1 && Identity(2) == 2 && Identity(5) == 5
    ensures BucketIndex(1, 2) == 1 && BucketIndex(5, 2) == 1
    ensures BucketIndex(1, 4) == 1 && BucketIndex(5, 4) == 1 && BucketIndex(2, 4) == 2
  {
  }

  lemma FlattenTwo<E>(bs: seq<seq<E>>)
    requires |bs| == 2 && bs[0] == []
    ensures Flatten(bs) == bs[1]
  {
    assert bs[1..][1..] == [];
    assert Flatten(bs[1..][1..]) == [];
    assert Flatten(bs[1..]) == bs[1] + [];
  }

  lemma FilterTwo(e1: Entry<bv32, int>, e5: Entry<bv32, int>)
    requires e1 == Entry(1, 10, 1) && e5 == Entry(5, 50, 5)
    ensures Filter([e1, e5], 1, 4) == [e1, e5]
    ensures Filter([e1, e5], 2, 4) == []
    ensures Reverse([e1, e5]) == [e5, e1]
  {
    assert [e1, e5][1..] == [e5] && [e5][1..] == [];
    SmallIndices();
    assert Filter([e5], 1, 4) == [e5] + Filter([], 1, 4);
    assert Filter([e5], 2, 4) == Filter([], 2, 4);
  }

}

/** The chained hash table of hashmap.h (`HASHMAP_DEFINE_CUSTOM`) as a value:
    a bucket array of chains plus the entry count, parameterised by the key
    hash function. Key equality is Dafny's `==`, standing for `equals`.

    Every operation is related to the abstract association `Abstract(m)`,
    the map from each stored key to its value. */
module Hashmaps {
  import opened Options
  import opened Chains
  import opened PowerOfTwo

  /** Capacity that `hashmap_new` passes to the constructor. */
  const DefaultCapacity: nat := 16

  /** `entries[0..capacity)` as chains in link order, and `size`. */
  datatype Hashmap<K, V> = Hashmap(buckets: seq<seq<Entry<K, V>>>, size: nat)

  /** Result of `remove`: whether a key was unlinked, and the table after. */
  datatype Removed<K, V> = Removed(ok: bool, table: Hashmap<K, V>)

  /** Every entry caches the hash of its key and sits in the chain that hash selects. */
  ghost predicate Placed<K, V>(bs: seq<seq<Entry<K, V>>>, hash: K -> bv32)
  {
    forall i, e :: 0 <= i < |bs| && e in bs[i] ==> e.hash == hash(e.key) && BucketIndex(e.hash, |bs|) == i
  }

  /** The representation invariant every operation keeps. */
  ghost predicate Valid<K, V>(m: Hashmap<K, V>, hash: K -> bv32)
  {
    && IsPowerOfTwo(|m.buckets|)
    && Placed(m.buckets, hash)
    && (forall i :: 0 <= i < |m.buckets| ==> UniqueKeys(m.buckets[i]))
    && m.size == |Flatten(m.buckets)|
  }

  /** The key/value association the table stands for. */
  function Abstract<K(==), V>(m: Hashmap<K, V>): map<K, V>
  {
    ToMap(Flatten(m.buckets))
  }

  /** The chain `hash(k) & (capacity - 1)` selects. */
  function Slot<K, V>(m: Hashmap<K, V>, hash: K -> bv32, k: K): (i: nat)
    requires |m.buckets| > 0
    ensures i < |m.buckets|
  {
    BucketIndex(hash(k), |m.buckets|)
  }

  // ---------------------------------------------------------------------------
  // Facts about valid tables
  // ---------------------------------------------------------------------------

  /** A key can only be in the chain its hash selects, so looking it up there
      is looking it up in the whole table. */
  lemma LookupInSlot<K, V>(m: Hashmap<K, V>, hash: K -> bv32, k: K)
    requires Valid(m, hash)
    ensures Lookup(Abstract(m), k) == Find(m.buckets[Slot(m, hash, k)], k)
  {
    ToMapFind(Flatten(m.buckets), k);
    FindFlatten(m.buckets, k, Slot(m, hash, k));
  }

  /** No key is stored twice anywhere in a valid table. */
  lemma ValidKeysUnique<K, V>(m: Hashmap<K, V>, hash: K -> bv32)
    requires Valid(m, hash)
    ensures UniqueKeys(Flatten(m.buckets))
  {
    FlattenUnique(m.buckets);
  }

  /** Tables of the same capacity whose chains answer every lookup as `a`
      does stand for `a`. */
  lemma AbstractByLookups<K, V>(r: Hashmap<K, V>, hash: K -> bv32, a: map<K, V>)
    requires Valid(r, hash)
    requires forall k :: Find(r.buckets[Slot(r, hash, k)], k) == Lookup(a, k)
    ensures Abstract(r) == a
  {
    forall k
      ensures Lookup(Abstract(r), k) == Lookup(a, k)
    {
      LookupInSlot(r, hash, k);
    }
    LookupExtensional(Abstract(r), a);
  }

  // ---------------------------------------------------------------------------
  // Construction
  // ---------------------------------------------------------------------------

  /** `Hashmap_new(capacity)`: `capacity` empty chains and `size` 0. */
  function New<K(==), V>(capacity: nat): (r: Hashmap<K, V>)
    ensures |r.buckets| == capacity && r.size == 0
    ensures forall i :: 0 <= i < capacity ==> r.buckets[i] == []
    ensures Abstract(r) == map[]
  {
    FlattenEmpty(EmptyBuckets<Entry<K, V>>(capacity));
    Hashmap(EmptyBuckets(capacity), 0)
  }

  /** A table constructed with a power-of-two capacity is valid for any hash. */
  lemma NewValid<K, V>(capacity: nat, hash: K -> bv32)
    requires IsPowerOfTwo(capacity)
    ensures Valid(New<K, V>(capacity), hash)
  {
    FlattenEmpty(New<K, V>(capacity).buckets);
  }

  /** `hashmap_new`: the default capacity, 16, is a power of two. */
  lemma NewDefaultValid<K, V>(hash: K -> bv32)
    ensures Valid(New<K, V>(DefaultCapacity), hash)
    ensures |New<K, V>(DefaultCapacity).buckets| == 16
  {
    NewValid<K, V>(DefaultCapacity, hash);
  }

  /** `hashmap_new_with_capacity`: constructs a table only when the requested
      `int` capacity passes the power-of-two test; otherwise the program
      reports the error and exits, modelled as `None`. */
  function NewWithCapacity<K(==), V>(capacity: bv32): (r: Option<Hashmap<K, V>>)
    ensures r.Some? <==> PassesCapacityCheck(capacity)
    ensures r.Some? ==> |r.value.buckets| == capacity as nat && IsPowerOfTwo(capacity as nat)
    ensures r.Some? ==> r.value.size == 0 && Abstract(r.value) == map[]
  {
    if PassesCapacityCheck(capacity) then
      CapacityCheckSound(capacity);
      Some(New(capacity as nat))
    else
      None
  }

  // ---------------------------------------------------------------------------
  // Lookup
  // ---------------------------------------------------------------------------

  /** `get`: walks the selected chain comparing keys only, and yields the
      value of the first match. */
  function Get<K(==), V>(m: Hashmap<K, V>, hash: K -> bv32, k: K): (r: Option<V>)
    requires Valid(m, hash)
    ensures r == Lookup(Abstract(m), k)
  {
    LookupInSlot(m, hash, k);
    Find(m.buckets[Slot(m, hash, k)], k)
  }

  /** `contains`: `get` found something. */
  function Contains<K(==), V>(m: Hashmap<K, V>, hash: K -> bv32, k: K): (r: bool)
    requires Valid(m, hash)
    ensures r <==> k in Abstract(m)
  {
    Get(m, hash, k).Some?
  }

  // ---------------------------------------------------------------------------
  // Resize
  // ---------------------------------------------------------------------------

  /** The load-factor test of `put`, `size >= capacity * 0.75`, in integers. */
  predicate NeedsResize<K, V>(m: Hashmap<K, V>)
  {
    4 * m.size >= 3 * |m.buckets|
  }

  /** `resize`: twice the chains; every entry, visited bucket by bucket and
      along each chain, is pushed onto the front of the chain its cached hash
      selects under the new capacity. */
  function Resize<K(==), V>(m: Hashmap<K, V>, hash: K -> bv32): (r: Hashmap<K, V>)
    requires Valid(m, hash)
    ensures Valid(r, hash)
    ensures |r.buckets| == 2 * |m.buckets| && r.size == m.size
    ensures multiset(Flatten(r.buckets)) == multiset(Flatten(m.buckets))
    ensures forall j :: 0 <= j < |r.buckets| ==> r.buckets[j] == Reverse(Filter(Flatten(m.buckets), j, |r.buckets|))
    ensures Abstract(r) == Abstract(m)
  {
    var es := Flatten(m.buckets);
    var bs := Relink(es, EmptyBuckets(2 * |m.buckets|));
    RelinkedTable(m, hash);
    Hashmap(bs, m.size)
  }

  lemma RelinkedTable<K, V>(m: Hashmap<K, V>, hash: K -> bv32)
    requires Valid(m, hash)
    ensures var es := Flatten(m.buckets);
      var r := Hashmap(Relink(es, EmptyBuckets(2 * |m.buckets|)), m.size);
      && Valid(r, hash)
      && multiset(Flatten(r.buckets)) == multiset(es)
      && (forall j :: 0 <= j < |r.buckets| ==> r.buckets[j] == Reverse(Filter(es, j, |r.buckets|)))
      && Abstract(r) == Abstract(m)
  {
    var es := Flatten(m.buckets);
    var capacity := 2 * |m.buckets|;
    var empty := EmptyBuckets<Entry<K, V>>(capacity);
    var bs := Relink(es, empty);
    var r := Hashmap(bs, m.size);
    DoubleIsPowerOfTwo(|m.buckets|);
    ValidKeysUnique(m, hash);
    forall j | 0 <= j < capacity
      ensures bs[j] == Reverse(Filter(es, j, capacity))
      ensures UniqueKeys(bs[j])
    {
      RelinkChains(es, empty, j);
      assert bs[j] == Reverse(Filter(es, j, capacity)) + [];
      FilterUnique(es, j, capacity);
      ReverseUnique(Filter(es, j, capacity));
    }
    forall j, e: Entry<K, V> | 0 <= j < capacity && e in bs[j]
      ensures e.hash == hash(e.key) && BucketIndex(e.hash, capacity) == j
    {
      assert e in multiset(Reverse(Filter(es, j, capacity)));
      FlattenMembership(m.buckets, e);
    }
    RelinkMultiset(es, empty);
    FlattenEmpty(empty);
    assert multiset(Flatten(bs)) == multiset(es);
    assert |Flatten(bs)| == |multiset(Flatten(bs))| == |multiset(es)| == |es|;
    assert Valid(r, hash);
    ValidKeysUnique(r, hash);
    ToMapPermutation(Flatten(bs), es);
  }

  // ---------------------------------------------------------------------------
  // Insertion
  // ---------------------------------------------------------------------------

  /** `put`: resize first when the load factor is reached (whether or not the
      key is present), then store into the selected chain. */
  function Put<K(==), V>(m: Hashmap<K, V>, hash: K -> bv32, k: K, v: V): (r: Hashmap<K, V>)
    requires Valid(m, hash)
    ensures Valid(r, hash)
    ensures Abstract(r) == Abstract(m)[k := v]
    ensures r.size == if k in Abstract(m) then m.size else m.size + 1
    ensures |r.buckets| == if NeedsResize(m) then 2 * |m.buckets| else |m.buckets|
  {
    var t := if NeedsResize(m) then Resize(m, hash) else m;
    Store(t, hash, k, v)
  }

  /** The chain walk of `put` after the resize check: overwrite the value of
      the entry with the same cached hash and key, or link a new entry after
      the last one. */
  function Store<K(==), V>(m: Hashmap<K, V>, hash: K -> bv32, k: K, v: V): (r: Hashmap<K, V>)
    requires Valid(m, hash)
    ensures Valid(r, hash)
    ensures Abstract(r) == Abstract(m)[k := v]
    ensures r.size == if k in Abstract(m) then m.size else m.size + 1
    ensures |r.buckets| == |m.buckets|
  {
    var h := hash(k);
    var i := BucketIndex(h, |m.buckets|);
    var c := m.buckets[i];
    match Locate(c, k, h)
    case Some(j) =>
      OverwriteFacts(m, hash, k, v, j);
      Hashmap(m.buckets[i := c[j := c[j].(value := v)]], m.size)
    case None =>
      AppendFacts(m, hash, k, v);
      Hashmap(m.buckets[i := c + [Entry(k, v, h)]], m.size + 1)
  }

  lemma OverwriteFacts<K, V>(m: Hashmap<K, V>, hash: K -> bv32, k: K, v: V, j: nat)
    requires Valid(m, hash)
    requires var c := m.buckets[Slot(m, hash, k)]; j < |c| && c[j].key == k
    ensures var i := Slot(m, hash, k);
      var c := m.buckets[i];
      var r := Hashmap(m.buckets[i := c[j := c[j].(value := v)]], m.size);
      && k in Abstract(m)
      && Valid(r, hash)
      && Abstract(r) == Abstract(m)[k := v]
  {
    var i := Slot(m, hash, k);
    var c := m.buckets[i];
    var c' := c[j := c[j].(value := v)];
    var r := Hashmap(m.buckets[i := c'], m.size);
    assert c[j] in c;
    LookupInSlot(m, hash, k);
    FindFirst(c, k, j);
    forall x | x in c'
      ensures x in c || x == c[j].(value := v)
    {
      var p :| 0 <= p < |c'| && c'[p] == x;
      if p != j {
        assert x == c[p];
      }
    }
    assert UniqueKeys(c') by {
      assert forall p :: 0 <= p < |c| ==> c'[p].key == c[p].key;
    }
    FlattenUpdate(m.buckets, i, c');
    assert Valid(r, hash);
    OverwriteLookups(m, hash, k, v, j, r);
  }

  lemma OverwriteLookups<K, V>(m: Hashmap<K, V>, hash: K -> bv32, k: K, v: V, j: nat, r: Hashmap<K, V>)
    requires Valid(m, hash)
    requires var c := m.buckets[Slot(m, hash, k)]; j < |c| && c[j].key == k
    requires var i := Slot(m, hash, k);
      var c := m.buckets[i];
      r.buckets == m.buckets[i := c[j := c[j].(value := v)]]
    requires Valid(r, hash)
    ensures Abstract(r) == Abstract(m)[k := v]
  {
    var i := Slot(m, hash, k);
    var c := m.buckets[i];
    forall k' | true
      ensures Find(r.buckets[Slot(r, hash, k')], k') == Lookup(Abstract(m)[k := v], k')
    {
      LookupInSlot(m, hash, k');
      if Slot(m, hash, k') == i {
        FindAfterSetValue(c, j, v, k');
      }
    }
    AbstractByLookups(r, hash, Abstract(m)[k := v]);
  }

  lemma AppendFacts<K, V>(m: Hashmap<K, V>, hash: K -> bv32, k: K, v: V)
    requires Valid(m, hash)
    requires Locate(m.buckets[Slot(m, hash, k)], k, hash(k)).None?
    ensures var i := Slot(m, hash, k);
      var c := m.buckets[i];
      var r := Hashmap(m.buckets[i := c + [Entry(k, v, hash(k))]], m.size + 1);
      && k !in Abstract(m)
      && Valid(r, hash)
      && Abstract(r) == Abstract(m)[k := v]
  {
    var i := Slot(m, hash, k);
    var c := m.buckets[i];
    var e := Entry(k, v, hash(k));
    var c' := c + [e];
    var r := Hashmap(m.buckets[i := c'], m.size + 1);
    assert forall x :: x in c ==> x.key != k;
    LookupInSlot(m, hash, k);
    ConcatUnique(c, [e]);
    FlattenUpdate(m.buckets, i, c');
    assert Valid(r, hash);
    AppendLookups(m, hash, k, v, r);
  }

  lemma AppendLookups<K, V>(m: Hashmap<K, V>, hash: K -> bv32, k: K, v: V, r: Hashmap<K, V>)
    requires Valid(m, hash)
    requires k !in Abstract(m)
    requires var i := Slot(m, hash, k);
      r.buckets == m.buckets[i := m.buckets[i] + [Entry(k, v, hash(k))]]
    requires Valid(r, hash)
    ensures Abstract(r) == Abstract(m)[k := v]
  {
    var i := Slot(m, hash, k);
    var c := m.buckets[i];
    var e := Entry(k, v, hash(k));
    LookupInSlot(m, hash, k);
    forall k' | true
      ensures Find(r.buckets[Slot(r, hash, k')], k') == Lookup(Abstract(m)[k := v], k')
    {
      LookupInSlot(m, hash, k');
      if Slot(m, hash, k') == i {
        FindAppend(c, [e], k');
      }
    }
    AbstractByLookups(r, hash, Abstract(m)[k := v]);
  }

  // ---------------------------------------------------------------------------
  // Removal and clearing
  // ---------------------------------------------------------------------------

  /** `remove`: unlink the entry with the same cached hash and key from the
      selected chain. */
  function Remove<K(==), V>(m: Hashmap<K, V>, hash: K -> bv32, k: K): (r: Removed<K, V>)
    requires Valid(m, hash)
    ensures Valid(r.table, hash)
    ensures r.ok <==> k in Abstract(m)
    ensures Abstract(r.table) == Abstract(m) - {k}
    ensures r.ok ==> r.table.size == m.size - 1 && |r.table.buckets| == |m.buckets|
    ensures !r.ok ==> r.table == m
  {
    var h := hash(k);
    var i := BucketIndex(h, |m.buckets|);
    var c := m.buckets[i];
    match Locate(c, k, h)
    case Some(j) =>
      UnlinkTableFacts(m, hash, k, j);
      Removed(true, Hashmap(m.buckets[i := c[..j] + c[j + 1..]], m.size - 1))
    case None =>
      LookupInSlot(m, hash, k);
      assert Abstract(m) - {k} == Abstract(m);
      Removed(false, m)
  }

  lemma UnlinkTableFacts<K, V>(m: Hashmap<K, V>, hash: K -> bv32, k: K, j: nat)
    requires Valid(m, hash)
    requires var c := m.buckets[Slot(m, hash, k)]; j < |c| && c[j].key == k
    ensures var i := Slot(m, hash, k);
      var c := m.buckets[i];
      && m.size >= 1
      && k in Abstract(m)
      && var r := Hashmap(m.buckets[i := c[..j] + c[j + 1..]], m.size - 1);
      && Valid(r, hash)
      && Abstract(r) == Abstract(m) - {k}
  {
    var i := Slot(m, hash, k);
    var c := m.buckets[i];
    var c' := c[..j] + c[j + 1..];
    assert c[j] in c;
    LookupInSlot(m, hash, k);
    FindFirst(c, k, j);
    UnlinkFacts(c, j);
    FlattenUpdate(m.buckets, i, c');
    var r := Hashmap(m.buckets[i := c'], m.size - 1);
    assert Valid(r, hash);
    UnlinkLookups(m, hash, k, j, r);
  }

  lemma UnlinkLookups<K, V>(m: Hashmap<K, V>, hash: K -> bv32, k: K, j: nat, r: Hashmap<K, V>)
    requires Valid(m, hash)
    requires var c := m.buckets[Slot(m, hash, k)]; j < |c| && c[j].key == k
    requires var i := Slot(m, hash, k);
      var c := m.buckets[i];
      r.buckets == m.buckets[i := c[..j] + c[j + 1..]]
    requires Valid(r, hash)
    ensures Abstract(r) == Abstract(m) - {k}
  {
    var i := Slot(m, hash, k);
    var c := m.buckets[i];
    var c' := c[..j] + c[j + 1..];
    UnlinkFacts(c, j);
    forall k' | true
      ensures Find(r.buckets[Slot(r, hash, k')], k') == Lookup(Abstract(m) - {k}, k')
    {
      LookupInSlot(m, hash, k');
      if Slot(m, hash, k') == i {
        if k' == k {
          assert forall x :: x in c' ==> x.key != k;
        } else {
          FindAfterUnlink(c, j, k');
        }
      }
    }
    AbstractByLookups(r, hash, Abstract(m) - {k});
  }

  /** `clear`: every chain emptied and `size` 0; the capacity stays. */
  function Clear<K(==), V>(m: Hashmap<K, V>, hash: K -> bv32): (r: Hashmap<K, V>)
    requires Valid(m, hash)
    ensures Valid(r, hash)
    ensures |r.buckets| == |m.buckets| && r.size == 0
    ensures forall i :: 0 <= i < |r.buckets| ==> r.buckets[i] == []
    ensures Abstract(r) == map[]
  {
    NewValid<K, V>(|m.buckets|, hash);
    New(|m.buckets|)
  }

}

/** Entries, collision chains and bucket arrays of hashmap.h, and the facts
    about them that the hash table engine relies on.

    A chain is the singly linked list hanging off one bucket, in link order;
    a bucket array is the sequence of all chains. */
module Chains {
  import opened Options

  /** One `HashmapEntry`: key, value and the hash cached at insertion. */
  datatype Entry<K, V> = Entry(key: K, value: V, hash: bv32)

  /** The bucket that `hash & (capacity - 1)` selects. For a power-of-two
      capacity the mask keeps the low bits of the hash, which is the
      remainder of the hash read as an unsigned number. */
  function BucketIndex(h: bv32, capacity: nat): (i: nat)
    requires capacity > 0
    ensures i < capacity
  {
    (h as int) % capacity
  }

  /** No key occurs twice in a chain. */
  predicate UniqueKeys<K(==), V>(c: seq<Entry<K, V>>)
  {
    forall i, j :: 0 <= i < |c| && 0 <= j < |c| && c[i].key == c[j].key ==> i == j
  }

  // ---------------------------------------------------------------------------
  // Chain walks
  // ---------------------------------------------------------------------------

  /** The walk of `get`: the value of the first entry whose key equals `k`. */
  function Find<K(==), V>(c: seq<Entry<K, V>>, k: K): (r: Option<V>)
    ensures r.None? <==> forall j :: 0 <= j < |c| ==> c[j].key != k
  {
    if c == [] then None
    else if c[0].key == k then Some(c[0].value)
    else Find(c[1..], k)
  }

  /** The walk of `put` and `remove`: the position of the first entry whose
      cached hash is `h` and whose key equals `k`. */
  function LocateFrom<K(==), V>(c: seq<Entry<K, V>>, k: K, h: bv32, from: nat): (r: Option<nat>)
    requires from <= |c|
    ensures r.Some? ==> from <= r.value < |c| && c[r.value].key == k && c[r.value].hash == h
    ensures r.Some? ==> forall j :: from <= j < r.value ==> !(c[j].hash == h && c[j].key == k)
    ensures r.None? <==> forall j :: from <= j < |c| ==> !(c[j].hash == h && c[j].key == k)
    decreases |c| - from
  {
    if from == |c| then None
    else if c[from].hash == h && c[from].key == k then Some(from)
    else LocateFrom(c, k, h, from + 1)
  }

  function Locate<K(==), V>(c: seq<Entry<K, V>>, k: K, h: bv32): (r: Option<nat>)
    ensures r.Some? ==> r.value < |c| && c[r.value].key == k && c[r.value].hash == h
    ensures r.Some? ==> forall j :: 0 <= j < r.value ==> !(c[j].hash == h && c[j].key == k)
    ensures r.None? <==> forall j :: 0 <= j < |c| ==> !(c[j].hash == h && c[j].key == k)
  {
    LocateFrom(c, k, h, 0)
  }

  lemma {:induction false} FindFirst<K, V>(c: seq<Entry<K, V>>, k: K, j: nat)
    requires j < |c| && c[j].key == k
    requires forall i :: 0 <= i < j ==> c[i].key != k
    ensures Find(c, k) == Some(c[j].value)
    decreases j
  {
    if j > 0 {
      FindFirst(c[1..], k, j - 1);
    }
  }

  lemma {:induction false} FindAppend<K, V>(a: seq<Entry<K, V>>, b: seq<Entry<K, V>>, k: K)
    ensures Find(a + b, k) == if Find(a, k).Some? then Find(a, k) else Find(b, k)
    decreases |a|
  {
    if a != [] {
      assert (a + b)[1..] == a[1..] + b;
      FindAppend(a[1..], b, k);
    } else {
      assert a + b == b;
    }
  }

  /** Changing the value of entry `j` changes only what its key finds. */
  lemma {:induction false} FindAfterSetValue<K, V>(c: seq<Entry<K, V>>, j: nat, v: V, k: K)
    requires j < |c|
    requires forall i :: 0 <= i < j ==> c[i].key != c[j].key
    ensures Find(c[j := c[j].(value := v)], k) == if k == c[j].key then Some(v) else Find(c, k)
    decreases j
  {
    var c' := c[j := c[j].(value := v)];
    if j > 0 {
      assert c'[1..] == c[1..][j - 1 := c[j].(value := v)];
      FindAfterSetValue(c[1..], j - 1, v, k);
    }
  }

  /** Unlinking entry `j` changes only what its key finds. */
  lemma FindAfterUnlink<K, V>(c: seq<Entry<K, V>>, j: nat, k: K)
    requires j < |c| && c[j].key != k
    ensures Find(c[..j] + c[j + 1..], k) == Find(c, k)
  {
    var a, b := c[..j], c[j + 1..];
    assert c == a + ([c[j]] + b);
    assert ([c[j]] + b)[1..] == b;
    assert Find([c[j]] + b, k) == Find(b, k);
    FindAppend(a, [c[j]] + b, k);
    FindAppend(a, b, k);
  }

  // ---------------------------------------------------------------------------
  // Bucket arrays
  // ---------------------------------------------------------------------------

  /** All entries, bucket by bucket and each chain in link order. */
  function Flatten<E>(bs: seq<seq<E>>): seq<E>
  {
    if bs == [] then [] else bs[0] + Flatten(bs[1..])
  }

  lemma {:induction false} FlattenMembership<E>(bs: seq<seq<E>>, e: E)
    ensures e in Flatten(bs) <==> exists i :: 0 <= i < |bs| && e in bs[i]
    decreases |bs|
  {
    if bs != [] {
      FlattenMembership(bs[1..], e);
      if e in Flatten(bs[1..]) {
        var i :| 0 <= i < |bs[1..]| && e in bs[1..][i];
        assert e in bs[i + 1];
      }
      if exists i :: 0 <= i < |bs| && e in bs[i] {
        var i :| 0 <= i < |bs| && e in bs[i];
        if i > 0 {
          assert e in bs[1..][i - 1];
        }
      }
    }
  }

  /** The first `i + 1` chains flatten to the first `i` chains followed by chain `i`. */
  lemma {:induction false} FlattenSnoc<E>(bs: seq<seq<E>>, i: nat)
    requires i < |bs|
    ensures Flatten(bs[..i + 1]) == Flatten(bs[..i]) + bs[i]
    decreases i
  {
    if i == 0 {
      assert bs[..1][1..] == [];
    } else {
      assert bs[..i + 1][1..] == bs[1..][..i];
      assert bs[..i][1..] == bs[1..][..i - 1];
      FlattenSnoc(bs[1..], i - 1);
    }
  }

  /** Replacing one chain changes the entry multiset by exactly that chain. */
  lemma {:induction false} FlattenUpdate<E>(bs: seq<seq<E>>, i: nat, c: seq<E>)
    requires i < |bs|
    ensures multiset(Flatten(bs[i := c])) + multiset(bs[i]) == multiset(Flatten(bs)) + multiset(c)
    ensures |Flatten(bs[i := c])| + |bs[i]| == |Flatten(bs)| + |c|
    decreases i
  {
    var bs' := bs[i := c];
    if i > 0 {
      assert bs'[1..] == bs[1..][i - 1 := c];
      FlattenUpdate(bs[1..], i - 1, c);
      assert bs[1..][i - 1] == bs[i];
      var lhs := multiset(Flatten(bs')) + multiset(bs[i]);
      var rhs := multiset(Flatten(bs)) + multiset(c);
      assert lhs == multiset(bs[0]) + (multiset(Flatten(bs'[1..])) + multiset(bs[i]));
      assert rhs == multiset(bs[0]) + (multiset(Flatten(bs[1..])) + multiset(c));
    } else {
      assert bs'[1..] == bs[1..];
      assert Flatten(bs') == c + Flatten(bs[1..]);
    }
  }

  /** `capacity` empty chains, as the constructor and `resize` allocate them. */
  function EmptyBuckets<E>(capacity: nat): (bs: seq<seq<E>>)
    ensures |bs| == capacity
    ensures forall i :: 0 <= i < capacity ==> bs[i] == []
  {
    seq(capacity, _ => [])
  }

  lemma {:induction false} FlattenEmpty<E>(bs: seq<seq<E>>)
    requires forall i :: 0 <= i < |bs| ==> bs[i] == []
    ensures Flatten(bs) == []
    decreases |bs|
  {
    if bs != [] {
      FlattenEmpty(bs[1..]);
    }
  }

  /** When `k` can only be in chain `b`, looking it up in all entries is
      looking it up in that chain. */
  lemma {:induction false} FindFlatten<K, V>(bs: seq<seq<Entry<K, V>>>, k: K, b: nat)
    requires b < |bs|
    requires forall i, e :: 0 <= i < |bs| && i != b && e in bs[i] ==> e.key != k
    ensures Find(Flatten(bs), k) == Find(bs[b], k)
    decreases |bs|
  {
    FindAppend(bs[0], Flatten(bs[1..]), k);
    if b == 0 {
      forall e | e in Flatten(bs[1..])
        ensures e.key != k
      {
        FlattenMembership(bs[1..], e);
        var i :| 0 <= i < |bs[1..]| && e in bs[1..][i];
        assert e in bs[i + 1];
      }
      assert Find(Flatten(bs[1..]), k).None?;
    } else {
      assert forall j :: 0 <= j < |bs[0]| ==> bs[0][j] in bs[0];
      FindFlatten(bs[1..], k, b - 1);
    }
  }

  // ---------------------------------------------------------------------------
  // Abstraction to a map
  // ---------------------------------------------------------------------------

  /** The key/value association of a sequence of entries; the first entry of
      a key wins, as in `Find`. */
  function ToMap<K(==), V>(c: seq<Entry<K, V>>): map<K, V>
  {
    if c == [] then map[] else ToMap(c[1..])[c[0].key := c[0].value]
  }

  /** Optional lookup in a map, the shape `get` returns. */
  function Lookup<K(==), V>(m: map<K, V>, k: K): Option<V>
  {
    if k in m then Some(m[k]) else None
  }

  lemma {:induction false} ToMapFind<K, V>(c: seq<Entry<K, V>>, k: K)
    ensures Lookup(ToMap(c), k) == Find(c, k)
    decreases |c|
  {
    if c != [] {
      ToMapFind(c[1..], k);
    }
  }

  lemma {:induction false} ToMapMembers<K, V>(c: seq<Entry<K, V>>)
    requires UniqueKeys(c)
    ensures forall e :: e in c ==> Lookup(ToMap(c), e.key) == Some(e.value)
    ensures forall k :: k in ToMap(c) ==> exists e :: e in c && e.key == k
  {
    forall e | e in c
      ensures Lookup(ToMap(c), e.key) == Some(e.value)
    {
      var j :| 0 <= j < |c| && c[j] == e;
      FindFirst(c, e.key, j);
      ToMapFind(c, e.key);
    }
    forall k | k in ToMap(c)
      ensures exists e :: e in c && e.key == k
    {
      ToMapFind(c, k);
      var j :| 0 <= j < |c| && c[j].key == k;
      assert c[j] in c;
    }
  }

  /** Two duplicate-free entry sequences holding the same entries denote the same map. */
  lemma ToMapPermutation<K, V>(a: seq<Entry<K, V>>, b: seq<Entry<K, V>>)
    requires UniqueKeys(a) && UniqueKeys(b)
    requires multiset(a) == multiset(b)
    ensures ToMap(a) == ToMap(b)
  {
    ToMapMembers(a);
    ToMapMembers(b);
    forall k | k in ToMap(a)
      ensures Lookup(ToMap(b), k) == Lookup(ToMap(a), k)
    {
      var e :| e in a && e.key == k;
      assert e in multiset(b);
    }
    forall k | k in ToMap(b)
      ensures k in ToMap(a)
    {
      var e :| e in b && e.key == k;
      assert e in multiset(a);
    }
    LookupExtensional(ToMap(a), ToMap(b));
  }

  /** Maps that answer every lookup alike are equal. */
  lemma LookupExtensional<K, V>(m1: map<K, V>, m2: map<K, V>)
    requires forall k :: Lookup(m1, k) == Lookup(m2, k)
    ensures m1 == m2
  {
    assert forall k :: k in m1 <==> Lookup(m1, k).Some?;
    assert m1.Keys == m2.Keys;
  }

  // ---------------------------------------------------------------------------
  // Relinking into a larger bucket array
  // ---------------------------------------------------------------------------

  function Reverse<E>(s: seq<E>): (r: seq<E>)
    ensures |r| == |s|
    ensures forall i :: 0 <= i < |s| ==> r[i] == s[|s| - 1 - i]
    ensures multiset(r) == multiset(s)
  {
    if s == [] then []
    else
      assert s == [s[0]] + s[1..];
      Reverse(s[1..]) + [s[0]]
  }

  lemma ReverseUnique<K, V>(c: seq<Entry<K, V>>)
    requires UniqueKeys(c)
    ensures UniqueKeys(Reverse(c))
  {
    var r := Reverse(c);
    forall i, j | 0 <= i < |r| && 0 <= j < |r| && r[i].key == r[j].key
      ensures i == j
    {
      assert r[i] == c[|c| - 1 - i] && r[j] == c[|c| - 1 - j];
    }
  }

  /** The entries of `es` that select bucket `j` of `capacity`, in order. */
  function Filter<K(==), V>(es: seq<Entry<K, V>>, j: nat, capacity: nat): (r: seq<Entry<K, V>>)
    requires capacity > 0
    ensures forall e :: e in r ==> e in es && BucketIndex(e.hash, capacity) == j
    ensures forall e :: e in es && BucketIndex(e.hash, capacity) == j ==> e in r
  {
    if es == [] then []
    else if BucketIndex(es[0].hash, capacity) == j then [es[0]] + Filter(es[1..], j, capacity)
    else Filter(es[1..], j, capacity)
  }

  /** The relinking loop of `resize`: each entry, in traversal order, is
      pushed onto the FRONT of the chain its cached hash selects. */
  function Relink<K(==), V>(es: seq<Entry<K, V>>, bs: seq<seq<Entry<K, V>>>): (r: seq<seq<Entry<K, V>>>)
    requires |bs| > 0
    ensures |r| == |bs|
    decreases |es|
  {
    if es == [] then bs
    else
      var i := BucketIndex(es[0].hash, |bs|);
      Relink(es[1..], bs[i := [es[0]] + bs[i]])
  }

  /** After relinking, chain `j` holds the entries selecting `j` in reverse
      traversal order, in front of what it held before. */
  lemma {:induction false} RelinkChains<K, V>(es: seq<Entry<K, V>>, bs: seq<seq<Entry<K, V>>>, j: nat)
    requires |bs| > 0 && j < |bs|
    ensures Relink(es, bs)[j] == Reverse(Filter(es, j, |bs|)) + bs[j]
    decreases |es|
  {
    if es != [] {
      var i := BucketIndex(es[0].hash, |bs|);
      RelinkChains(es[1..], bs[i := [es[0]] + bs[i]], j);
      if i == j {
        var f := Filter(es[1..], j, |bs|);
        assert Reverse([es[0]] + f) == Reverse(f) + [es[0]] by {
          assert ([es[0]] + f)[1..] == f;
        }
      }
    }
  }

  /** Relinking loses and duplicates no entry. */
  lemma {:induction false} RelinkMultiset<K, V>(es: seq<Entry<K, V>>, bs: seq<seq<Entry<K, V>>>)
    requires |bs| > 0
    ensures multiset(Flatten(Relink(es, bs))) == multiset(Flatten(bs)) + multiset(es)
    decreases |es|
  {
    if es != [] {
      var i := BucketIndex(es[0].hash, |bs|);
      var bs' := bs[i := [es[0]] + bs[i]];
      PrependMultiset(bs, i, es[0]);
      RelinkMultiset(es[1..], bs');
      assert es == [es[0]] + es[1..];
      assert multiset(es) == multiset{es[0]} + multiset(es[1..]);
    }
  }

  lemma {:induction false} PrependMultiset<E>(bs: seq<seq<E>>, i: nat, e: E)
    requires i < |bs|
    ensures multiset(Flatten(bs[i := [e] + bs[i]])) == multiset(Flatten(bs)) + multiset{e}
    decreases i
  {
    var bs' := bs[i := [e] + bs[i]];
    if i > 0 {
      assert bs'[1..] == bs[1..][i - 1 := [e] + bs[1..][i - 1]];
      PrependMultiset(bs[1..], i - 1, e);
      assert multiset(Flatten(bs')) == multiset(bs[0]) + multiset(Flatten(bs'[1..]));
    } else {
      assert bs'[1..] == bs[1..];
      assert multiset(Flatten(bs')) == multiset([e] + bs[0]) + multiset(Flatten(bs[1..]));
    }
  }

  lemma {:induction false} FilterUnique<K, V>(es: seq<Entry<K, V>>, j: nat, capacity: nat)
    requires capacity > 0 && UniqueKeys(es)
    ensures UniqueKeys(Filter(es, j, capacity))
    decreases |es|
  {
    if es != [] {
      var rest := Filter(es[1..], j, capacity);
      FilterUnique(es[1..], j, capacity);
      if BucketIndex(es[0].hash, capacity) == j {
        forall e | e in rest
          ensures e.key != es[0].key
        {
          var k :| 0 <= k < |es[1..]| && es[1..][k] == e;
          assert es[k + 1] == e;
        }
        ConcatUnique([es[0]], rest);
      }
    }
  }

  /** Two duplicate-free chains with no key in common concatenate to a
      duplicate-free chain. */
  lemma ConcatUnique<K, V>(a: seq<Entry<K, V>>, b: seq<Entry<K, V>>)
    requires UniqueKeys(a) && UniqueKeys(b)
    requires forall x, y :: x in a && y in b ==> x.key != y.key
    ensures UniqueKeys(a + b)
  {
    var s := a + b;
    forall i, j | 0 <= i < |s| && 0 <= j < |s| && s[i].key == s[j].key
      ensures i == j
    {
      if i >= |a| && j >= |a| {
        assert s[i] == b[i - |a|] && s[j] == b[j - |a|];
      }
    }
  }

  /** Chains that are duplicate-free, and whose keys never occur in two
      different chains, flatten to a duplicate-free sequence. */
  lemma {:induction false} FlattenUnique<K, V>(bs: seq<seq<Entry<K, V>>>)
    requires forall i :: 0 <= i < |bs| ==> UniqueKeys(bs[i])
    requires forall i, j, x, y :: 0 <= i < |bs| && 0 <= j < |bs| && x in bs[i] && y in bs[j] && x.key == y.key ==> i == j
    ensures UniqueKeys(Flatten(bs))
    decreases |bs|
  {
    if bs != [] {
      var rest := bs[1..];
      forall i, j, x: Entry<K, V>, y: Entry<K, V> | 0 <= i < |rest| && 0 <= j < |rest| && x in rest[i] && y in rest[j] && x.key == y.key
        ensures i == j
      {
        assert x in bs[i + 1] && y in bs[j + 1];
      }
      FlattenUnique(rest);
      forall x: Entry<K, V>, y: Entry<K, V> | x in bs[0] && y in Flatten(rest)
        ensures x.key != y.key
      {
        FlattenMembership(rest, y);
        var j :| 0 <= j < |rest| && y in rest[j];
        assert y in bs[j + 1];
      }
      ConcatUnique(bs[0], Flatten(rest));
    }
  }

  /** Unlinking entry `j` from a duplicate-free chain keeps it duplicate-free,
      drops exactly that entry's key, and keeps every other entry. */
  lemma UnlinkFacts<K, V>(c: seq<Entry<K, V>>, j: nat)
    requires j < |c| && UniqueKeys(c)
    ensures UniqueKeys(c[..j] + c[j + 1..])
    ensures forall x :: x in c[..j] + c[j + 1..] ==> x in c && x.key != c[j].key
    ensures |c[..j] + c[j + 1..]| == |c| - 1
  {
    var u := c[..j] + c[j + 1..];
    assert forall p :: 0 <= p < |u| ==> u[p] == (if p < j then c[p] else c[p + 1]);
    forall x | x in u
      ensures x in c && x.key != c[j].key
    {
      var p :| 0 <= p < |u| && u[p] == x;
      if p < j {
        assert x == c[p];
      } else {
        assert x == c[p + 1];
      }
    }
    forall p, q | 0 <= p < |u| && 0 <= q < |u| && u[p].key == u[q].key
      ensures p == q
    {
      var p0 := if p < j then p else p + 1;
      var q0 := if q < j then q else q + 1;
      assert u[p] == c[p0] && u[q] == c[q0];
    }
  }

}

/** The iterator and the display of hashmap.h. Both visit the chains in
    bucket-index order and each chain in link order, which is the order of
    `Flatten`. */
module HashmapIteration {
  import opened Options
  import opened Chains
  import opened Hashmaps
  import Text

  // ---------------------------------------------------------------------------
  // Iterator
  // ---------------------------------------------------------------------------

  /** Where an entry pointer points: link `link` of chain `bucket`. */
  datatype Position = Position(bucket: nat, link: nat)

  /** `HashmapIterator`: the next bucket to scan and the current entry, if any. */
  datatype MapIterator = MapIterator(index: int, entry: Option<Position>)

  /** The states the iterator functions can produce: the current entry, when
      there is one, lies in the bucket scanned last. */
  predicate WellFormed<K, V>(m: Hashmap<K, V>, it: MapIterator)
  {
    && 0 <= it.index <= |m.buckets|
    && (it.entry.Some? ==>
          && it.entry.value.bucket + 1 == it.index
          && it.entry.value.link < |m.buckets[it.entry.value.bucket]|)
  }

  /** `get_iterator`: bucket 0, no current entry. */
  function GetIterator(): (it: MapIterator)
    ensures it.entry.None?
  {
    MapIterator(0, None)
  }

  /** The entry the iterator points at; `iterator_current_key` and
      `iterator_current_value` read its key and value. */
  function Current<K, V>(m: Hashmap<K, V>, it: MapIterator): (e: Entry<K, V>)
    requires WellFormed(m, it) && it.entry.Some?
    ensures e in m.buckets[it.index - 1]
  {
    m.buckets[it.entry.value.bucket][it.entry.value.link]
  }

  /** The entries a well-formed iterator has not yet yielded. */
  function Rest<K, V>(m: Hashmap<K, V>, it: MapIterator): seq<Entry<K, V>>
    requires WellFormed(m, it)
  {
    (match it.entry
     case Some(p) => m.buckets[p.bucket][p.link + 1..]
     case None => [])
    + Flatten(m.buckets[it.index..])
  }

  /** `iterator_next`: follow the link when there is a next entry in the
      chain, otherwise scan for the next non-empty bucket. */
  function IteratorNext<K, V>(m: Hashmap<K, V>, it: MapIterator): (r: (bool, MapIterator))
    requires WellFormed(m, it)
    ensures WellFormed(m, r.1)
    ensures r.0 ==> r.1.entry.Some?
  {
    match it.entry
    case Some(p) =>
      if p.link + 1 < |m.buckets[p.bucket]| then (true, it.(entry := Some(Position(p.bucket, p.link + 1))))
      else Scan(m, it)
    case None => Scan(m, it)
  }

  /** The `while (index < capacity)` loop: load the head of bucket `index`,
      advance `index`, stop at a non-empty bucket. When the loop does not run
      at all the current entry is left as it was. */
  function Scan<K, V>(m: Hashmap<K, V>, it: MapIterator): (r: (bool, MapIterator))
    requires WellFormed(m, it)
    ensures WellFormed(m, r.1)
    ensures r.0 ==> r.1.entry.Some?
    decreases |m.buckets| - it.index
  {
    if it.index >= |m.buckets| then (false, it)
    else
      var c := m.buckets[it.index];
      var next := MapIterator(it.index + 1, if c == [] then None else Some(Position(it.index, 0)));
      if c != [] then (true, next) else Scan(m, next)
  }

  /** A successful `next` yields the first entry not yet yielded; a failed one
      means every entry was yielded. */
  lemma NextAdvances<K, V>(m: Hashmap<K, V>, it: MapIterator)
    requires WellFormed(m, it)
    ensures var r := IteratorNext(m, it);
      && (r.0 ==> Rest(m, it) == [Current(m, r.1)] + Rest(m, r.1))
      && (!r.0 ==> Rest(m, it) == [])
  {
    match it.entry
    case Some(p) =>
      var c := m.buckets[p.bucket];
      if p.link + 1 < |c| {
        assert c[p.link + 1..] == [c[p.link + 1]] + c[p.link + 2..];
      } else {
        assert c[p.link + 1..] == [];
        ScanAdvances(m, it);
      }
    case None =>
      ScanAdvances(m, it);
  }

  lemma {:induction false} ScanAdvances<K, V>(m: Hashmap<K, V>, it: MapIterator)
    requires WellFormed(m, it)
    ensures var r := Scan(m, it);
      && (r.0 ==> Flatten(m.buckets[it.index..]) == [Current(m, r.1)] + Rest(m, r.1))
      && (!r.0 ==> Flatten(m.buckets[it.index..]) == [])
    decreases |m.buckets| - it.index
  {
    var bs := m.buckets;
    if it.index < |bs| {
      var c := bs[it.index];
      var next := MapIterator(it.index + 1, if c == [] then None else Some(Position(it.index, 0)));
      assert bs[it.index..][1..] == bs[it.index + 1..];
      assert Flatten(bs[it.index..]) == c + Flatten(bs[it.index + 1..]);
      if c != [] {
        assert c == [c[0]] + c[1..];
      } else {
        ScanAdvances(m, next);
      }
    } else {
      assert bs[it.index..] == [];
    }
  }

  /** The entries yielded by calling `next` until it fails, reading the
      current entry after each success. */
  function Traverse<K, V>(m: Hashmap<K, V>, it: MapIterator): seq<Entry<K, V>>
    requires WellFormed(m, it)
    decreases |Rest(m, it)|
  {
    var r := IteratorNext(m, it);
    if !r.0 then []
    else
      NextAdvances(m, it);
      [Current(m, r.1)] + Traverse(m, r.1)
  }

  lemma {:induction false} TraverseRest<K, V>(m: Hashmap<K, V>, it: MapIterator)
    requires WellFormed(m, it)
    ensures Traverse(m, it) == Rest(m, it)
    decreases |Rest(m, it)|
  {
    var r := IteratorNext(m, it);
    NextAdvances(m, it);
    if r.0 {
      TraverseRest(m, r.1);
    }
  }

  /** A fresh iterator visits every entry exactly once, bucket by bucket and
      along each chain, for `size` visits in all, and the keys it visits
      carry exactly the table's association. */
  lemma IteratorVisitsAll<K, V>(m: Hashmap<K, V>, hash: K -> bv32)
    requires Valid(m, hash)
    ensures Traverse(m, GetIterator()) == Flatten(m.buckets)
    ensures |Traverse(m, GetIterator())| == m.size
    ensures UniqueKeys(Traverse(m, GetIterator()))
    ensures ToMap(Traverse(m, GetIterator())) == Abstract(m)
  {
    TraverseRest(m, GetIterator());
    assert m.buckets[0..] == m.buckets;
    ValidKeysUnique(m, hash);
  }

  // ---------------------------------------------------------------------------
  // Display
  // ---------------------------------------------------------------------------

  /** `key: value` through the two element formatters. */
  function ShowEntry<K, V>(e: Entry<K, V>, showKey: K -> string, showValue: V -> string): string
  {
    showKey(e.key) + ": " + showValue(e.value)
  }

  /** The body of `display` from the entry numbered `count` on: each entry,
      then ", " while `count < size - 1`. */
  function ShowEntries<K, V>(es: seq<Entry<K, V>>, count: int, size: int,
                             showKey: K -> string, showValue: V -> string): string
    decreases |es|
  {
    if es == [] then ""
    else
      ShowEntry(es[0], showKey, showValue) + (if count < size - 1 then ", " else "")
      + ShowEntries(es[1..], count + 1, size, showKey, showValue)
  }

  /** `display`: braces around the entries in bucket and chain order. */
  function Display<K, V>(m: Hashmap<K, V>, showKey: K -> string, showValue: V -> string): string
  {
    "{" + ShowEntries(Flatten(m.buckets), 0, m.size, showKey, showValue) + "}"
  }

  function ShowAll<K, V>(es: seq<Entry<K, V>>, showKey: K -> string, showValue: V -> string): (r: seq<string>)
    ensures |r| == |es|
    ensures forall i :: 0 <= i < |es| ==> r[i] == ShowEntry(es[i], showKey, showValue)
  {
    if es == [] then [] else [ShowEntry(es[0], showKey, showValue)] + ShowAll(es[1..], showKey, showValue)
  }

  lemma {:induction false} ShowEntriesConcat<K, V>(a: seq<Entry<K, V>>, b: seq<Entry<K, V>>, count: int, size: int,
                                                   showKey: K -> string, showValue: V -> string)
    ensures ShowEntries(a + b, count, size, showKey, showValue)
         == ShowEntries(a, count, size, showKey, showValue) + ShowEntries(b, count + |a|, size, showKey, showValue)
    decreases |a|
  {
    if a == [] {
      assert a + b == b;
    } else {
      assert (a + b)[1..] == a[1..] + b;
      ShowEntriesConcat(a[1..], b, count + 1, size, showKey, showValue);
    }
  }

  lemma {:induction false} ShowEntriesJoin<K, V>(es: seq<Entry<K, V>>, count: int, showKey: K -> string, showValue: V -> string)
    ensures ShowEntries(es, count, count + |es|, showKey, showValue) == Text.Join(ShowAll(es, showKey, showValue), ", ")
    decreases |es|
  {
    if es != [] {
      ShowEntriesJoin(es[1..], count + 1, showKey, showValue);
      if |es| == 1 {
        assert ShowAll(es[1..], showKey, showValue) == [];
      }
    }
  }

  /** When `size` counts the entries, as in every valid table, the display is
      `{`, the `key: value` pairs separated by ", ", then `}`; an empty table
      shows as `{}`. */
  lemma DisplayIsBracedList<K, V>(m: Hashmap<K, V>, hash: K -> bv32, showKey: K -> string, showValue: V -> string)
    requires Valid(m, hash)
    ensures Display(m, showKey, showValue) == "{" + Text.Join(ShowAll(Flatten(m.buckets), showKey, showValue), ", ") + "}"
    ensures m.size == 0 ==> Display(m, showKey, showValue) == "{}"
  {
    ShowEntriesJoin(Flatten(m.buckets), 0, showKey, showValue);
  }

  /** The nested loops of `display`: over the buckets, and along each chain,
      with a running `count` of the entries written so far. */
  method DisplayLoop<K, V>(m: Hashmap<K, V>, showKey: K -> string, showValue: V -> string) returns (out: string)
    ensures out == Display(m, showKey, showValue)
  {
    out := "{";
    var count := 0;
    var i := 0;
    while i < |m.buckets|
      invariant 0 <= i <= |m.buckets|
      invariant count == |Flatten(m.buckets[..i])|
      invariant out == "{" + ShowEntries(Flatten(m.buckets[..i]), 0, m.size, showKey, showValue)
    {
      var c := m.buckets[i];
      var done := Flatten(m.buckets[..i]);
      var p := 0;
      assert done + c[..0] == done;
      while p < |c|
        invariant 0 <= p <= |c|
        invariant count == |done| + p
        invariant out == "{" + ShowEntries(done + c[..p], 0, m.size, showKey, showValue)
      {
        ShowEntriesConcat(done + c[..p], [c[p]], 0, m.size, showKey, showValue);
        assert done + c[..p + 1] == (done + c[..p]) + [c[p]];
        out := out + ShowEntry(c[p], showKey, showValue);
        if count < m.size - 1 {
          out := out + ", ";
        }
        count := count + 1;
        p := p + 1;
      }
      assert c[..p] == c;
      FlattenSnoc(m.buckets, i);
      i := i + 1;
    }
    assert m.buckets[..i] == m.buckets;
    out := out + "}";
  }

}

/** The element-moving loops of vector.h, step by step, shown to compute the
    value-level operations of `Vectors`. */
module VectorLoops {
  import opened Vectors

  /** `remove(index)` as the source performs it: each slot from `index` on
      takes the value of its right neighbour, then `size` drops by one. */
  method RemoveShifting<T>(v: Vector<T>, index: int) returns (ok: bool, r: Vector<T>)
    requires Valid(v)
    ensures Updated(ok, r) == Remove(v, index)
  {
    if index < 0 || index >= |v.elems| {
      return false, v;
    }
    var data := v.elems;
    var i := index;
    while i < |data| - 1
      invariant index <= i <= |data| - 1
      invariant |data| == |v.elems|
      invariant forall j :: 0 <= j < index ==> data[j] == v.elems[j]
      invariant forall j :: index <= j < i ==> data[j] == v.elems[j + 1]
      invariant forall j :: i <= j < |data| ==> data[j] == v.elems[j]
    {
      data := data[i := data[i + 1]];
      i := i + 1;
    }
    ok, r := true, Vector(data[..|data| - 1], v.capacity);
    assert r.elems == v.elems[..index] + v.elems[index + 1..];
  }

  /** `insert(index, x)` as the source performs it: after the bounds check and
      the growth step, slots `size` down to `index + 1` take the value of their
      left neighbour, and `x` is written at `index`. */
  method InsertShifting<T>(v: Vector<T>, index: int, x: T) returns (ok: bool, r: Vector<T>)
    requires Valid(v)
    ensures Updated(ok, r) == Insert(v, index, x)
  {
    if index < 0 || index > |v.elems| {
      return false, v;
    }
    var capacity := Reserve(v);
    // slot `size` is now allocated; its old content is irrelevant
    var data := v.elems + [x];
    var i := |v.elems|;
    while i > index
      invariant index <= i <= |v.elems|
      invariant |data| == |v.elems| + 1
      invariant forall j :: 0 <= j < i ==> data[j] == v.elems[j]
      invariant forall j :: i < j <= |v.elems| ==> data[j] == v.elems[j - 1]
    {
      data := data[i := data[i - 1]];
      i := i - 1;
    }
    data := data[index := x];
    ok, r := true, Vector(data, capacity);
    assert r.elems == v.elems[..index] + [x] + v.elems[index..];
  }

  /** `index_of(x)` as the source's `for` loop: the first index whose element
      `equals` `x`, -1 after a full unsuccessful scan. */
  method IndexOfScan<T>(v: Vector<T>, equals: (T, T) -> bool, x: T) returns (r: int)
    ensures r == IndexOf(v, equals, x)
  {
    var i := 0;
    while i < |v.elems|
      invariant 0 <= i <= |v.elems|
      invariant forall j :: 0 <= j < i ==> !equals(v.elems[j], x)
    {
      if equals(v.elems[i], x) {
        return i;
      }
      i := i + 1;
    }
    return -1;
  }

}

/** The dynamic array engine of vector.h (the body of VECTOR_DEFINE_CUSTOM).

    A vector is its live contents `data[0..size)` together with the number of
    allocated slots. Element equality is the instantiation's `equals`
    function, passed as a parameter; element display is an abstract formatter. */
module Vectors {
  import opened Options
  import Text

  /** Initial capacity used by `vector_new`. */
  const DefaultCapacity: nat := 10

  datatype Vector<T> = Vector(elems: seq<T>, capacity: nat)

  /** Result of the operations that report success with a `bool`. */
  datatype Updated<T> = Updated(ok: bool, vec: Vector<T>)

  /** The buffer holds every live element: `size <= capacity`. */
  predicate Valid<T>(v: Vector<T>)
  {
    |v.elems| <= v.capacity
  }

  function Size<T>(v: Vector<T>): nat
  {
    |v.elems|
  }

  // ---------------------------------------------------------------------------
  // Construction and growth
  // ---------------------------------------------------------------------------

  /** `Vector_T_new(capacity)`: an empty vector owning `capacity` slots. */
  function New<T>(capacity: nat): (v: Vector<T>)
    ensures Valid(v) && Size(v) == 0 && v.capacity == capacity
  {
    Vector([], capacity)
  }

  /** `vector_new(T)`. */
  function NewDefault<T>(): (v: Vector<T>)
    ensures Valid(v) && Size(v) == 0 && v.capacity == 10
  {
    New(DefaultCapacity)
  }

  /** The capacity `push` and `insert` move to when the buffer is full, as
      written: `capacity *= 2`, which leaves a zero capacity at zero. */
  function GrowAsWritten(capacity: nat): nat
  {
    capacity * 2
  }

  /** The capacity a full buffer evidently should move to: double it, and
      allocate one slot when there were none. */
  function Grow(capacity: nat): (r: nat)
    ensures r > capacity
    ensures capacity > 0 ==> r == GrowAsWritten(capacity)
  {
    if capacity == 0 then 1 else GrowAsWritten(capacity)
  }

  /** Capacity after making room for one more element. */
  function Reserve<T>(v: Vector<T>): nat
  {
    if |v.elems| == v.capacity then Grow(v.capacity) else v.capacity
  }

  // ---------------------------------------------------------------------------
  // push / pop / last
  // ---------------------------------------------------------------------------

  /** `push` exactly as written: grows with `GrowAsWritten`, then stores. */
  function PushAsWritten<T>(v: Vector<T>, x: T): Vector<T>
  {
    var capacity := if |v.elems| == v.capacity then GrowAsWritten(v.capacity) else v.capacity;
    Vector(v.elems + [x], capacity)
  }

  /** `push(x)`, with the growth step corrected for a zero capacity. */
  function Push<T>(v: Vector<T>, x: T): (r: Vector<T>)
    requires Valid(v)
    ensures Valid(r)
    ensures Size(r) == Size(v) + 1
    ensures r.elems[Size(v)] == x
    ensures forall i :: 0 <= i < Size(v) ==> r.elems[i] == v.elems[i]
    ensures Size(v) < v.capacity ==> r.capacity == v.capacity
    ensures v.capacity > 0 ==> (r.capacity == 2 * v.capacity <==> Size(v) == v.capacity)
    ensures r.capacity >= v.capacity
  {
    Vector(v.elems + [x], Reserve(v))
  }

  /** `pop`: drops the last element; reports `false` on an empty vector. */
  function Pop<T>(v: Vector<T>): (r: Updated<T>)
    ensures r.ok <==> Size(v) > 0
    ensures !r.ok ==> r.vec == v
    ensures r.ok ==> r.vec.elems + [v.elems[Size(v) - 1]] == v.elems
    ensures r.vec.capacity == v.capacity
  {
    if |v.elems| > 0 then Updated(true, Vector(v.elems[..|v.elems| - 1], v.capacity))
    else Updated(false, v)
  }

  /** `last`: the final element, absent exactly when the vector is empty. */
  function Last<T>(v: Vector<T>): (r: Option<T>)
    ensures r.None? <==> Size(v) == 0
    ensures r.Some? ==> r.value == v.elems[Size(v) - 1]
  {
    if |v.elems| > 0 then Some(v.elems[|v.elems| - 1]) else None
  }

  // ---------------------------------------------------------------------------
  // Indexed access
  // ---------------------------------------------------------------------------

  /** The slot `get(index)` reads as written: it checks only `index < size`,
      so any negative index passes the guard. */
  function GetSlotAsWritten<T>(v: Vector<T>, index: int): Option<int>
  {
    if index < |v.elems| then Some(index) else None
  }

  /** `get(index)` with the lower bound the other indexed operations check. */
  function Get<T>(v: Vector<T>, index: int): (r: Option<T>)
    ensures r.Some? <==> 0 <= index < Size(v)
    ensures r.Some? ==> r.value == v.elems[index]
  {
    if 0 <= index < |v.elems| then Some(v.elems[index]) else None
  }

  /** `set(index, x)`: overwrites one live element. */
  function Set<T>(v: Vector<T>, index: int, x: T): (r: Updated<T>)
    ensures r.ok <==> 0 <= index < Size(v)
    ensures !r.ok ==> r.vec == v
    ensures r.ok ==> Size(r.vec) == Size(v) && r.vec.elems[index] == x
    ensures forall i :: 0 <= i < Size(v) && i != index ==> r.vec.elems[i] == v.elems[i]
    ensures r.vec.capacity == v.capacity
  {
    if 0 <= index < |v.elems| then Updated(true, Vector(v.elems[index := x], v.capacity))
    else Updated(false, v)
  }

  /** `insert(index, x)`: opens a gap at `index` by shifting the tail right. */
  function Insert<T>(v: Vector<T>, index: int, x: T): (r: Updated<T>)
    requires Valid(v)
    ensures Valid(r.vec)
    ensures r.ok <==> 0 <= index <= Size(v)
    ensures !r.ok ==> r.vec == v
    ensures r.ok ==> Size(r.vec) == Size(v) + 1 && r.vec.elems[index] == x
    ensures r.ok ==> forall i :: 0 <= i < index ==> r.vec.elems[i] == v.elems[i]
    ensures r.ok ==> forall i :: index < i <= Size(v) ==> r.vec.elems[i] == v.elems[i - 1]
    ensures r.ok && Size(v) < v.capacity ==> r.vec.capacity == v.capacity
    ensures r.ok && v.capacity > 0 ==> (r.vec.capacity == 2 * v.capacity <==> Size(v) == v.capacity)
    ensures r.vec.capacity >= v.capacity
  {
    if 0 <= index <= |v.elems| then
      Updated(true, Vector(v.elems[..index] + [x] + v.elems[index..], Reserve(v)))
    else Updated(false, v)
  }

  /** `remove(index)`: closes the gap at `index` by shifting the tail left. */
  function Remove<T>(v: Vector<T>, index: int): (r: Updated<T>)
    requires Valid(v)
    ensures Valid(r.vec)
    ensures r.ok <==> 0 <= index < Size(v)
    ensures !r.ok ==> r.vec == v
    ensures r.ok ==> Size(r.vec) == Size(v) - 1
    ensures r.ok ==> forall i :: 0 <= i < index ==> r.vec.elems[i] == v.elems[i]
    ensures r.ok ==> forall i :: index <= i < Size(r.vec) ==> r.vec.elems[i] == v.elems[i + 1]
    ensures r.vec.capacity == v.capacity
  {
    if 0 <= index < |v.elems| then
      Updated(true, Vector(v.elems[..index] + v.elems[index + 1..], v.capacity))
    else Updated(false, v)
  }

  /** `clear`: forgets every element and keeps the buffer. */
  function Clear<T>(v: Vector<T>): (r: Vector<T>)
    ensures Valid(r) && Size(r) == 0 && r.capacity == v.capacity
  {
    Vector([], v.capacity)
  }

  // ---------------------------------------------------------------------------
  // Linear search with the instantiation's `equals`
  // ---------------------------------------------------------------------------

  /** The first index at or after `from` whose element `equals` `x`, or -1. */
  function IndexFrom<T>(s: seq<T>, equals: (T, T) -> bool, x: T, from: nat): (r: int)
    requires from <= |s|
    ensures -1 <= r < |s|
    ensures r == -1 <==> forall i :: from <= i < |s| ==> !equals(s[i], x)
    ensures r != -1 ==> from <= r && equals(s[r], x)
    ensures r != -1 ==> forall i :: from <= i < r ==> !equals(s[i], x)
    decreases |s| - from
  {
    if from == |s| then -1
    else if equals(s[from], x) then from
    else IndexFrom(s, equals, x, from + 1)
  }

  /** `index_of(x)`: the least matching index, -1 when nothing matches. */
  function IndexOf<T>(v: Vector<T>, equals: (T, T) -> bool, x: T): (r: int)
    ensures -1 <= r < Size(v)
    ensures r == -1 <==> forall i :: 0 <= i < Size(v) ==> !equals(v.elems[i], x)
    ensures r != -1 ==> equals(v.elems[r], x)
    ensures r != -1 ==> forall i :: 0 <= i < r ==> !equals(v.elems[i], x)
  {
    IndexFrom(v.elems, equals, x, 0)
  }

  /** `contains(x)`, defined in the source as `index_of(x) != -1`. */
  function Contains<T>(v: Vector<T>, equals: (T, T) -> bool, x: T): (r: bool)
    ensures r <==> exists i :: 0 <= i < Size(v) && equals(v.elems[i], x)
  {
    IndexOf(v, equals, x) != -1
  }

  /** `remove_element(x)`: `remove(index_of(x))`, so -1 is rejected by `remove`. */
  function RemoveElement<T>(v: Vector<T>, equals: (T, T) -> bool, x: T): (r: Updated<T>)
    requires Valid(v)
    ensures Valid(r.vec)
    ensures r.ok <==> Contains(v, equals, x)
    ensures !r.ok ==> r.vec == v
    ensures r.ok ==> var k := IndexOf(v, equals, x);
      && equals(v.elems[k], x)
      && (forall i :: 0 <= i < k ==> !equals(v.elems[i], x))
      && r.vec.elems == v.elems[..k] + v.elems[k + 1..]
  {
    Remove(v, IndexOf(v, equals, x))
  }

  // ---------------------------------------------------------------------------
  // Iterator: a cursor that starts before index 0
  // ---------------------------------------------------------------------------

  datatype Iterator = Iterator(index: int)

  /** `get_iterator`: positioned before the first element. */
  function GetIterator(): (it: Iterator)
    ensures it.index == -1
  {
    Iterator(-1)
  }

  /** `iterator_next`: advances while a further element exists. */
  function IteratorNext<T>(v: Vector<T>, it: Iterator): (r: (bool, Iterator))
    requires -1 <= it.index
    ensures r.0 <==> it.index + 1 < Size(v)
    ensures r.0 ==> r.1.index == it.index + 1
    ensures !r.0 ==> r.1 == it
  {
    if it.index < |v.elems| - 1 then (true, Iterator(it.index + 1)) else (false, it)
  }

  /** `iterator_current`: the element under the cursor, absent outside `0..size`. */
  function IteratorCurrent<T>(v: Vector<T>, it: Iterator): (r: Option<T>)
    ensures r.Some? <==> 0 <= it.index < Size(v)
    ensures r.Some? ==> r.value == v.elems[it.index]
  {
    if 0 <= it.index < |v.elems| then Some(v.elems[it.index]) else None
  }

  /** The elements a `while (next) current` loop yields from cursor `it`. */
  function Traverse<T>(v: Vector<T>, it: Iterator): seq<T>
    requires -1 <= it.index
    decreases |v.elems| - it.index
  {
    var (more, next) := IteratorNext(v, it);
    if more then [IteratorCurrent(v, next).value] + Traverse(v, next) else []
  }

  // ---------------------------------------------------------------------------
  // Display skeleton
  // ---------------------------------------------------------------------------

  /** The text the display loop writes for elements `from..size`: each element,
      followed by ", " unless it is the last one. */
  function DisplayFrom<T>(s: seq<T>, format: T -> string, from: nat): string
    requires from <= |s|
    decreases |s| - from
  {
    if from == |s| then ""
    else format(s[from]) + (if from != |s| - 1 then ", " else "") + DisplayFrom(s, format, from + 1)
  }

  /** `display`: `[`, the elements in index order, `]`. */
  function Display<T>(v: Vector<T>, format: T -> string): string
  {
    "[" + DisplayFrom(v.elems, format, 0) + "]"
  }

  /** Formatted elements, in order. */
  function FormatAll<T>(s: seq<T>, format: T -> string): (r: seq<string>)
    ensures |r| == |s|
    ensures forall i :: 0 <= i < |s| ==> r[i] == format(s[i])
  {
    if s == [] then [] else [format(s[0])] + FormatAll(s[1..], format)
  }

}
